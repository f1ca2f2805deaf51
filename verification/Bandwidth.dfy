/**
 * The bandwidth monitor of an RMID: update_local_bandwidth.  The register counts modulo
 * the monitor's maximum count plus one, in units of the upscaling factor.
 */
module Bandwidth {
  import opened Arithmetic

  /** What reading the monitoring register yields. */
  datatype Reading = Unavailable | Value(raw: nat)

  lemma ScaledEqual(a: int, b: int, k: nat)
    ensures k > 0 ==> (a * k == b * k <==> a == b)
  {
    if k > 0 && a != b {
      MulSub(a, b, k);
      if a < b {
        MulMonotone(a + 1, b, k);
        MulSub(a + 1, a, k);
      } else {
        MulMonotone(b + 1, a, k);
        MulSub(b + 1, b, k);
      }
    }
  }

  class Monitor {
    const maxCount: nat
    const upscalingFactor: nat
    var rawBandwidthValue: nat
    var bandwidthValue: nat
    ghost var last: nat      // what the register had counted in all at the last reading

    ghost predicate Valid()
      reads this
    {
      rawBandwidthValue == last % (maxCount + 1) < maxCount + 1
    }

    constructor (maxCount: nat, upscalingFactor: nat)
      ensures Valid() && last == 0
      ensures this.maxCount == maxCount && this.upscalingFactor == upscalingFactor
    {
      this.maxCount, this.upscalingFactor := maxCount, upscalingFactor;
      rawBandwidthValue, bandwidthValue, last := 0, 0, 0;
      new;
      ModWrap(0, maxCount + 1);
    }

    /** Reports what was transferred since the last reading that succeeded, exactly unless the register wrapped all the way round. */
    method UpdateLocalBandwidth(reading: Reading, ghost total: nat)
      requires Valid() && last <= total
      requires reading.Value? ==> reading.raw == total % (maxCount + 1)
      modifies this
      ensures Valid()
      ensures reading == Unavailable ==> unchanged(this)
      ensures reading.Value? ==> last == total && bandwidthValue == ((total - old(last)) % (maxCount + 1)) * upscalingFactor
      ensures reading.Value? && upscalingFactor > 0 ==>
                (bandwidthValue == (total - old(last)) * upscalingFactor <==> total - old(last) <= maxCount)
    {
      match reading
      case Unavailable =>
      case Value(raw) =>
        DivMod(total, maxCount + 1);
        DeltaIsInterval(last, total, maxCount + 1);
        var delta := if rawBandwidthValue > raw then (maxCount - rawBandwidthValue) + raw + 1 else raw - rawBandwidthValue;
        MulNonNegative(delta, upscalingFactor);
        ScaledEqual(delta, total - last, upscalingFactor);
        bandwidthValue := delta * upscalingFactor;
        rawBandwidthValue := raw;
        last := total;
    }
  }
}

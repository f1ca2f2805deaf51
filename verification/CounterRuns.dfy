/**
 * Runs of the counters of an experiment: events, overflow interrupts and reads.
 *
 * The counters count modulo w.  A wrap sets a status bit, and the next interrupt notes it.
 * A read takes the value and the wraps noted, and starts the counter again from its reset
 * value.  The counter used for sampling is different: when its wrap is delivered, the
 * handler reads all counters and adds the sampling threshold to its value.
 */
module CounterRuns {
  import opened Arithmetic

  /** A counter, the overflows noted for it, and its overflow status bit. */
  datatype State = State(value: nat, noted: nat, status: bool)

  /** The modulus of the counters, the index of the one used for sampling or -1, and the reset values. */
  datatype Config = Config(w: nat, ebs: int, resets: seq<nat>)

  /** An event on counter l, the interrupt that delivers all wraps, or a read of all counters. */
  datatype Step = Happen(l: nat) | Interrupt | Collect

  datatype Outcome = Outcome(states: seq<State>, samples: seq<nat>)

  // ---------------------------------------------------------------------------
  // Reset values and wraps
  // ---------------------------------------------------------------------------

  /** Negation followed by masking to counters that count modulo w. */
  function NegMasked(x: int, w: nat): (r: nat)
    requires w > 0
    ensures r < w
  {
    DivMod(-x, w);
    (-x) % w
  }

  /** The handler recovers the sampling threshold from the reset value exactly when the threshold fits the counter. */
  lemma ThresholdRecovered(t: nat, w: nat)
    requires w > 0
    ensures NegMasked(NegMasked(t, w), w) == t % w
    ensures NegMasked(NegMasked(t, w), w) == t <==> t < w
    ensures 0 < t < w ==> NegMasked(t, w) == w - t
  {
    DivMod(t, w);
    var q: int, r: int := t / w, t % w;
    if r == 0 {
      ModUnique(0 - t, w, -q, 0);
      ModUnique(0, w, 0, 0);
    } else {
      MulSub(-q, 1, w);
      ModUnique(0 - t, w, -q - 1, w - r);
      ModUnique(r - w, w, -1, r);
    }
    if t < w {
      ModWrap(t, w);
    }
  }

  lemma NegMaskedIs(x: nat, w: nat)
    requires x < w
    ensures NegMasked(x, w) == if x == 0 then 0 else w - x
  {
    ThresholdRecovered(x, w);
    ModWrap(0, w);
  }

  /** What k wraps of a counter modulo w are worth. */
  function Wraps(w: nat, k: nat): (r: nat) {
    MulNonNegative(k, w);
    k * w
  }

  lemma OneMoreWrap(w: nat, k: nat)
    ensures Wraps(w, k + 1) == Wraps(w, k) + w && Wraps(w, 0) == 0
  {
    MulSub(k + 1, k, w);
  }

  // ---------------------------------------------------------------------------
  // One counter
  // ---------------------------------------------------------------------------

  /** What a read returns. */
  function Visible(s: State, w: nat): nat {
    s.value + Wraps(w, s.noted)
  }

  /** The same, once a pending wrap will have been noted. */
  function Seen(s: State, w: nat): nat {
    Visible(s, w) + if s.status then w else 0
  }

  /** One event; a wrap sets the status bit, whether or not it is still set from the last one. */
  function Counted(s: State, w: nat): State {
    if s.value + 1 == w then State(0, s.noted, true) else s.(value := s.value + 1)
  }

  /** The interrupt acknowledges the status bit and notes the wrap. */
  function Delivered(s: State): State {
    if s.status then State(s.value, s.noted + 1, false) else s
  }

  lemma DeliveredSeen(s: State, w: nat)
    ensures Visible(Delivered(s), w) == Seen(Delivered(s), w) == Seen(s, w)
  {
    OneMoreWrap(w, s.noted);
  }

  // ---------------------------------------------------------------------------
  // All counters
  // ---------------------------------------------------------------------------

  ghost predicate Ok(cf: Config, ss: seq<State>) {
    && |ss| == |cf.resets| && -1 <= cf.ebs < |ss| && cf.w > 0
    && (forall l | 0 <= l < |ss| :: ss[l].value < cf.w && cf.resets[l] < cf.w)
    && (cf.ebs != -1 ==> ss[cf.ebs].noted == 0)
  }

  function Restarted(cf: Config): (r: seq<State>)
    ensures |r| == |cf.resets| && forall l | 0 <= l < |r| :: r[l] == State(cf.resets[l], 0, false)
  {
    seq(|cf.resets|, l requires 0 <= l < |cf.resets| => State(cf.resets[l], 0, false))
  }

  predicate Fires(cf: Config, ss: seq<State>)
    requires -1 <= cf.ebs < |ss|
  {
    cf.ebs != -1 && ss[cf.ebs].status
  }

  /** What a read of all counters returns. */
  function Readings(cf: Config, ss: seq<State>): (r: seq<nat>)
    ensures |r| == |ss| && forall l | 0 <= l < |r| :: r[l] == Visible(ss[l], cf.w)
  {
    seq(|ss|, l requires 0 <= l < |ss| => Visible(ss[l], cf.w))
  }

  /** The sample taken when the sampling counter has fired: its value goes up by the threshold. */
  function FiredSample(cf: Config, ss: seq<State>): (r: seq<nat>)
    requires Ok(cf, ss) && cf.ebs != -1
    ensures |r| == |ss|
    ensures forall l | 0 <= l < |r| ::
              r[l] == if l == cf.ebs then ss[l].value + NegMasked(cf.resets[l], cf.w) else Visible(Delivered(ss[l]), cf.w)
  {
    seq(|ss|, l requires 0 <= l < |ss| =>
      if l == cf.ebs then ss[l].value + NegMasked(cf.resets[l], cf.w) else Visible(Delivered(ss[l]), cf.w))
  }

  function AllDelivered(ss: seq<State>): (r: seq<State>)
    ensures |r| == |ss| && forall l | 0 <= l < |r| :: r[l] == Delivered(ss[l])
  {
    seq(|ss|, l requires 0 <= l < |ss| => Delivered(ss[l]))
  }

  ghost predicate Enabled(cf: Config, step: Step) {
    step.Happen? ==> step.l < |cf.resets|
  }

  /** One step of all counters, and the samples it reports. */
  function Next(cf: Config, ss: seq<State>, step: Step): (r: Outcome)
    requires Ok(cf, ss) && Enabled(cf, step)
    ensures Ok(cf, r.states) && (r.samples == [] || |r.samples| == |ss|)
  {
    match step
    case Happen(l) => Outcome(ss[l := Counted(ss[l], cf.w)], [])
    case Interrupt => if Fires(cf, ss) then Outcome(Restarted(cf), FiredSample(cf, ss)) else Outcome(AllDelivered(ss), [])
    case Collect => Outcome(Restarted(cf), Readings(cf, ss))
  }

  lemma IsCollect(cf: Config, ss: seq<State>, after: seq<State>, samples: seq<nat>)
    requires Ok(cf, ss) && |after| == |samples| == |ss|
    requires forall l | 0 <= l < |ss| :: after[l] == State(cf.resets[l], 0, false) && samples[l] == Visible(ss[l], cf.w)
    ensures Outcome(after, samples) == Next(cf, ss, Collect)
  {
    assert after == Restarted(cf) && samples == Readings(cf, ss);
  }

  lemma CollectIs(cf: Config, ss: seq<State>)
    requires Ok(cf, ss)
    ensures var o := Next(cf, ss, Collect);
            && o.states == Restarted(cf) && |o.samples| == |ss|
            && forall l | 0 <= l < |ss| :: o.samples[l] == Visible(ss[l], cf.w)
  {
  }

  /** The counters with all wraps delivered, where that of the sampling counter is not noted. */
  function AllNoted(cf: Config, ss: seq<State>): (r: seq<State>)
    ensures |r| == |ss|
    ensures forall l | 0 <= l < |r| :: r[l] == if l == cf.ebs then ss[l].(status := false) else Delivered(ss[l])
  {
    seq(|ss|, l requires 0 <= l < |ss| => if l == cf.ebs then ss[l].(status := false) else Delivered(ss[l]))
  }

  /** An interrupt is the delivery of all wraps, and then a read when the sampling counter has fired. */
  lemma IsInterrupt(cf: Config, ss: seq<State>, noted: seq<State>)
    requires Ok(cf, ss) && noted == AllNoted(cf, ss)
    ensures Ok(cf, noted)
    ensures !Fires(cf, ss) ==> Outcome(noted, []) == Next(cf, ss, Interrupt)
    ensures Fires(cf, ss) ==>
              var o := Next(cf, noted, Collect);
              Outcome(o.states, o.samples[cf.ebs := o.samples[cf.ebs] + NegMasked(cf.resets[cf.ebs], cf.w)]) == Next(cf, ss, Interrupt)
  {
    if Fires(cf, ss) {
      OneMoreWrap(cf.w, 0);
      var samples := Next(cf, noted, Collect).samples;
      assert samples[cf.ebs := samples[cf.ebs] + NegMasked(cf.resets[cf.ebs], cf.w)] == FiredSample(cf, ss);
    } else {
      assert noted == AllDelivered(ss);
    }
  }

  // ---------------------------------------------------------------------------
  // Runs
  // ---------------------------------------------------------------------------

  ghost predicate AllEnabled(cf: Config, steps: seq<Step>) {
    forall i | 0 <= i < |steps| :: Enabled(cf, steps[i])
  }

  function Run(cf: Config, ss: seq<State>, steps: seq<Step>): (r: seq<State>)
    requires Ok(cf, ss) && AllEnabled(cf, steps)
    ensures Ok(cf, r)
    decreases |steps|
  {
    if steps == [] then ss else Run(cf, Next(cf, ss, steps[0]).states, steps[1..])
  }

  function SampleOf(o: Outcome, l: nat): nat {
    if l < |o.samples| then o.samples[l] else 0
  }

  /** The sum of the samples of counter l over a run. */
  function Reported(cf: Config, ss: seq<State>, steps: seq<Step>, l: nat): nat
    requires Ok(cf, ss) && AllEnabled(cf, steps)
    decreases |steps|
  {
    if steps == [] then 0
    else
      var o := Next(cf, ss, steps[0]);
      SampleOf(o, l) + Reported(cf, o.states, steps[1..], l)
  }

  /** The events of counter l in a run. */
  function Events(steps: seq<Step>, l: nat): nat {
    if steps == [] then 0 else (if steps[0] == Happen(l) then 1 else 0) + Events(steps[1..], l)
  }

  /** By how much a step reports too much (or too little) for counter l. */
  function Drift(cf: Config, ss: seq<State>, step: Step, l: nat): int
    requires Ok(cf, ss) && l < |ss|
  {
    match step
    case Happen(k) => if k == l && ss[l].value + 1 == cf.w && ss[l].status then 0 - cf.w else 0
    case Interrupt =>
      if !Fires(cf, ss) then 0
      else if l != cf.ebs then cf.resets[l]
      else if cf.resets[l] == 0 then 0 - cf.w else 0
    case Collect => cf.resets[l] - if ss[l].status then cf.w else 0
  }

  function TotalDrift(cf: Config, ss: seq<State>, steps: seq<Step>, l: nat): int
    requires Ok(cf, ss) && AllEnabled(cf, steps) && l < |ss|
    decreases |steps|
  {
    if steps == [] then 0
    else Drift(cf, ss, steps[0], l) + TotalDrift(cf, Next(cf, ss, steps[0]).states, steps[1..], l)
  }

  /** One step conserves events: what it reports and leaves behind is what it found, up to its drift. */
  lemma StepConserves(cf: Config, ss: seq<State>, step: Step, l: nat)
    requires Ok(cf, ss) && Enabled(cf, step) && l < |ss|
    ensures var o := Next(cf, ss, step);
            SampleOf(o, l) + Seen(o.states[l], cf.w)
            == Seen(ss[l], cf.w) + (if step == Happen(l) then 1 else 0) + Drift(cf, ss, step, l)
  {
    OneMoreWrap(cf.w, 0);
    DeliveredSeen(ss[l], cf.w);
    NegMaskedIs(cf.resets[l], cf.w);
  }

  /** So does a run of any steps. */
  lemma {:induction false} RunConserves(cf: Config, ss: seq<State>, steps: seq<Step>, l: nat)
    requires Ok(cf, ss) && AllEnabled(cf, steps) && l < |ss|
    ensures Reported(cf, ss, steps, l) + Seen(Run(cf, ss, steps)[l], cf.w)
            == Seen(ss[l], cf.w) + Events(steps, l) + TotalDrift(cf, ss, steps, l)
    decreases |steps|
  {
    if steps != [] {
      StepConserves(cf, ss, steps[0], l);
      hide Seen;
      hide Drift;
      RunConserves(cf, Next(cf, ss, steps[0]).states, steps[1..], l);
    }
  }

  /**
   * A step that comes too late for counter l: an event wraps it while its last wrap still
   * waits for the interrupt, or it is read while one does.  A counter that samples with a
   * reset value of zero is late whenever it fires.
   */
  predicate Late(cf: Config, ss: seq<State>, step: Step, l: nat)
    requires Ok(cf, ss) && l < |ss|
  {
    match step
    case Happen(k) => k == l && ss[l].value + 1 == cf.w && ss[l].status
    case Interrupt => l == cf.ebs && cf.resets[l] == 0 && ss[l].status
    case Collect => ss[l].status
  }

  /** No step of the run comes too late for counter l. */
  predicate Prompt(cf: Config, ss: seq<State>, steps: seq<Step>, l: nat)
    requires Ok(cf, ss) && AllEnabled(cf, steps) && l < |ss|
    decreases |steps|
  {
    steps == [] || (!Late(cf, ss, steps[0], l) && Prompt(cf, Next(cf, ss, steps[0]).states, steps[1..], l))
  }

  /** Where no step can report too much, a run is exact just when no step comes too late. */
  lemma {:induction false} DriftsOnlyWhenLate(cf: Config, ss: seq<State>, steps: seq<Step>, l: nat)
    requires Ok(cf, ss) && AllEnabled(cf, steps) && l < |ss|
    requires cf.resets[l] == 0 || (l == cf.ebs && Collect !in steps)
    ensures TotalDrift(cf, ss, steps, l) <= 0
    ensures TotalDrift(cf, ss, steps, l) == 0 <==> Prompt(cf, ss, steps, l)
    decreases |steps|
  {
    if steps != [] {
      assert steps[0] in steps && forall s <- steps[1..] :: s in steps;
      assert Drift(cf, ss, steps[0], l) <= 0 && (Drift(cf, ss, steps[0], l) == 0 <==> !Late(cf, ss, steps[0], l));
      DriftsOnlyWhenLate(cf, Next(cf, ss, steps[0]).states, steps[1..], l);
    }
  }

  /**
   * Exact counts: for a counter that restarts from zero, over any run, the samples and what
   * the counter still shows add up to the events if and only if each wrap is delivered before
   * the next wrap and before the next read.
   */
  lemma CountsAreExact(cf: Config, ss: seq<State>, steps: seq<Step>, l: nat)
    requires Ok(cf, ss) && AllEnabled(cf, steps) && l < |ss| && cf.resets[l] == 0
    ensures Reported(cf, ss, steps, l) + Seen(Run(cf, ss, steps)[l], cf.w) <= Seen(ss[l], cf.w) + Events(steps, l)
    ensures Reported(cf, ss, steps, l) + Seen(Run(cf, ss, steps)[l], cf.w) == Seen(ss[l], cf.w) + Events(steps, l)
            <==> Prompt(cf, ss, steps, l)
  {
    RunConserves(cf, ss, steps, l);
    DriftsOnlyWhenLate(cf, ss, steps, l);
  }

  /** From a restart to a read, the samples alone add up to the events under that condition. */
  lemma SamplesAddUp(cf: Config, steps: seq<Step>, l: nat)
    requires Ok(cf, Restarted(cf)) && AllEnabled(cf, steps) && l < |cf.resets| && cf.resets[l] == 0
    requires steps != [] && steps[|steps| - 1] == Collect
    ensures Reported(cf, Restarted(cf), steps, l) == Events(steps, l) <==> Prompt(cf, Restarted(cf), steps, l)
  {
    CountsAreExact(cf, Restarted(cf), steps, l);
    EndsRestarted(cf, Restarted(cf), steps);
    OneMoreWrap(cf.w, 0);
  }

  lemma {:induction false} EndsRestarted(cf: Config, ss: seq<State>, steps: seq<Step>)
    requires Ok(cf, ss) && AllEnabled(cf, steps)
    requires steps != [] && steps[|steps| - 1] == Collect
    ensures Run(cf, ss, steps) == Restarted(cf)
    decreases |steps|
  {
    if |steps| == 1 {
      assert steps[1..] == [];
    } else {
      EndsRestarted(cf, Next(cf, ss, steps[0]).states, steps[1..]);
    }
  }

  /**
   * Sampling: for the counter used for it, with a threshold that fits, over any run in which
   * only its own interrupts read the counters, the samples and the events since the last
   * restart add up to the events if and only if it never wraps again before the interrupt.
   * With a reset value of zero, a run is exact only if the counter never fires at all.
   */
  lemma SamplesAreExact(cf: Config, ss: seq<State>, steps: seq<Step>)
    requires Ok(cf, ss) && AllEnabled(cf, steps) && cf.ebs != -1 && Collect !in steps
    ensures Reported(cf, ss, steps, cf.ebs) + Seen(Run(cf, ss, steps)[cf.ebs], cf.w) == Seen(ss[cf.ebs], cf.w) + Events(steps, cf.ebs)
            <==> Prompt(cf, ss, steps, cf.ebs)
  {
    RunConserves(cf, ss, steps, cf.ebs);
    DriftsOnlyWhenLate(cf, ss, steps, cf.ebs);
  }

  /** So between two restarts the samples alone add up to the events, under the same condition. */
  lemma SamplesSumToEvents(cf: Config, steps: seq<Step>)
    requires Ok(cf, Restarted(cf)) && AllEnabled(cf, steps) && cf.ebs != -1 && Collect !in steps
    requires Run(cf, Restarted(cf), steps) == Restarted(cf)
    ensures Reported(cf, Restarted(cf), steps, cf.ebs) == Events(steps, cf.ebs) <==> Prompt(cf, Restarted(cf), steps, cf.ebs)
  {
    SamplesAreExact(cf, Restarted(cf), steps);
  }
}

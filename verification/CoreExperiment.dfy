/**
 * Counter configuration and overflow accounting: do_setup_pmcs, the overflow handler
 * and the routines that read the counters, together with the counters themselves.
 * Each method does one step of the runs that CounterRuns is about.
 */
module CoreExperiment {
  import opened Arithmetic
  import opened CounterRuns
  import opened Masks
  import opened Sequences

  datatype PmcConfig = PmcConfig(ebsMode: bool, resetValue: nat)

  /** The last counter in the mask, among the first n, that is configured for event-based sampling. */
  function LastEbs(cfg: seq<PmcConfig>, mask: nat, n: nat): (i: int)
    requires n <= |cfg|
    ensures -1 <= i < n
    ensures i >= 0 ==> Bit(mask, i) && cfg[i].ebsMode
    ensures forall k: nat | i < k < n :: !(Bit(mask, k) && cfg[k].ebsMode)
  {
    if n == 0 then -1
    else if Bit(mask, n - 1) && cfg[n - 1].ebsMode then n - 1
    else LastEbs(cfg, mask, n - 1)
  }

  /** Both tables, once the first n bits of the mask have been numbered in increasing order. */
  ghost predicate Inverse(logToPhys: seq<int>, physToLog: seq<int>, mask: nat, n: nat) {
    var size := Rank(mask, n);
    && |logToPhys| == |physToLog| && n <= |physToLog|
    && (forall l | 0 <= l < size :: 0 <= logToPhys[l] < n && Bit(mask, logToPhys[l]) && physToLog[logToPhys[l]] == l)
    && (forall l | size <= l < |logToPhys| :: logToPhys[l] == -1)
    && (forall i | 0 <= i < |physToLog| :: physToLog[i] == if i < n && Bit(mask, i) then Rank(mask, i) else -1)
    && (forall i | 0 <= i < n && Bit(mask, i) :: 0 <= physToLog[i] < size && logToPhys[physToLog[i]] == i)
    && (forall a, b | 0 <= a < b < size :: logToPhys[a] < logToPhys[b])
  }

  lemma InverseNone(logToPhys: seq<int>, physToLog: seq<int>, mask: nat)
    requires |logToPhys| == |physToLog|
    requires forall i | 0 <= i < |logToPhys| :: logToPhys[i] == physToLog[i] == -1
    ensures Inverse(logToPhys, physToLog, mask, 0)
  {
  }

  lemma InverseSkip(logToPhys: seq<int>, physToLog: seq<int>, mask: nat, n: nat)
    requires Inverse(logToPhys, physToLog, mask, n) && n < |physToLog| && !Bit(mask, n)
    ensures Inverse(logToPhys, physToLog, mask, n + 1)
  {
    hide Bit;
  }

  /** A new last entry keeps both tables inverse to each other. */
  lemma Extended(logToPhys: seq<int>, physToLog: seq<int>, n: nat, size: nat, l2p: seq<int>, p2l: seq<int>)
    requires n < |physToLog| && size < |logToPhys|
    requires forall l | 0 <= l < size :: 0 <= logToPhys[l] < n && physToLog[logToPhys[l]] == l
    requires l2p == logToPhys[size := n] && p2l == physToLog[n := size]
    ensures forall l | 0 <= l < size + 1 :: 0 <= l2p[l] < n + 1 && p2l[l2p[l]] == l
  {
    forall l | 0 <= l < size + 1 ensures 0 <= l2p[l] < n + 1 && p2l[l2p[l]] == l {
      if l < size {
        assert l2p[l] == logToPhys[l];
      }
    }
  }

  lemma NextForward(logToPhys: seq<int>, physToLog: seq<int>, mask: nat, n: nat, size: nat, l2p: seq<int>, p2l: seq<int>)
    requires Inverse(logToPhys, physToLog, mask, n) && n < |physToLog| && Bit(mask, n) && size == Rank(mask, n)
    requires l2p == logToPhys[size := n] && p2l == physToLog[n := size]
    ensures forall l | 0 <= l < size + 1 :: 0 <= l2p[l] < n + 1 && Bit(mask, l2p[l]) && p2l[l2p[l]] == l
    ensures forall a, b | 0 <= a < b < size + 1 :: l2p[a] < l2p[b]
    ensures forall l | size + 1 <= l < |l2p| :: l2p[l] == -1
  {
    hide Bit;
    Extended(logToPhys, physToLog, n, size, l2p, p2l);
  }

  lemma NextBackward(logToPhys: seq<int>, physToLog: seq<int>, mask: nat, n: nat, size: nat, l2p: seq<int>, p2l: seq<int>)
    requires Inverse(logToPhys, physToLog, mask, n) && n < |physToLog| && Bit(mask, n) && size == Rank(mask, n)
    requires l2p == logToPhys[size := n] && p2l == physToLog[n := size]
    ensures forall i | 0 <= i < n + 1 && Bit(mask, i) :: 0 <= p2l[i] < size + 1 && l2p[p2l[i]] == i
    ensures forall i | 0 <= i < |p2l| :: p2l[i] == if i < n + 1 && Bit(mask, i) then Rank(mask, i) else -1
  {
    hide Bit;
    hide Rank;
    forall i | 0 <= i < n + 1 && Bit(mask, i) ensures 0 <= p2l[i] < size + 1 && l2p[p2l[i]] == i {
      if i < n {
        assert p2l[i] == physToLog[i] < size;
      }
    }
  }

  lemma NextInverse(l2p: seq<int>, p2l: seq<int>, mask: nat, n: nat, size: nat)
    requires size == Rank(mask, n) && |l2p| == |p2l| && n <= |p2l| && size <= |l2p|
    requires forall l | 0 <= l < size :: 0 <= l2p[l] < n && Bit(mask, l2p[l]) && p2l[l2p[l]] == l
    requires forall a, b | 0 <= a < b < size :: l2p[a] < l2p[b]
    requires forall l | size <= l < |l2p| :: l2p[l] == -1
    requires forall i | 0 <= i < n && Bit(mask, i) :: 0 <= p2l[i] < size && l2p[p2l[i]] == i
    requires forall i | 0 <= i < |p2l| :: p2l[i] == if i < n && Bit(mask, i) then Rank(mask, i) else -1
    ensures Inverse(l2p, p2l, mask, n)
  {
    hide Rank;
    hide Bit;
  }

  lemma SameLength(logToPhys: seq<int>, physToLog: seq<int>, mask: nat, n: nat)
    requires Inverse(logToPhys, physToLog, mask, n)
    ensures |logToPhys| == |physToLog| && Rank(mask, n) <= n <= |logToPhys|
  {
  }

  lemma InverseNext(logToPhys: seq<int>, physToLog: seq<int>, mask: nat, n: nat)
    requires Inverse(logToPhys, physToLog, mask, n) && n < |physToLog| && Bit(mask, n)
    ensures Inverse(logToPhys[Rank(mask, n) := n], physToLog[n := Rank(mask, n)], mask, n + 1)
  {
    hide Inverse;
    hide Bit;
    var size := Rank(mask, n);
    assert Rank(mask, n + 1) == size + 1;
    SameLength(logToPhys, physToLog, mask, n);
    var l2p, p2l := logToPhys[size := n], physToLog[n := size];
    NextForward(logToPhys, physToLog, mask, n, size, l2p, p2l);
    NextBackward(logToPhys, physToLog, mask, n, size, l2p, p2l);
    NextInverse(l2p, p2l, mask, n + 1, size + 1);
  }

  /**
   * A hardware counter and the low-level descriptor that configures it, with the
   * number of overflows noted for it and its overflow status bit.
   */
  class Counter {
    const phys: nat
    const w: nat                // pmc_width_mask + 1
    const resetValue: nat
    var value: nat
    var nrOverflows: nat
    var status: bool

    constructor (phys: nat, w: nat, resetValue: nat)
      ensures Now() == State(0, 0, false)
      ensures this.phys == phys && this.w == w && this.resetValue == resetValue
    {
      this.phys, this.w, this.resetValue := phys, w, resetValue;
      value, nrOverflows, status := 0, 0, false;
    }

    ghost function Now(): State
      reads this
    {
      State(value, nrOverflows, status)
    }

    /** One event; a wrap sets the status bit. */
    method Event()
      modifies this
      ensures Now() == Counted(old(Now()), w)
    {
      if value + 1 == w {
        value, status := 0, true;
      } else {
        value := value + 1;
      }
    }

    // The counter begins at its reset value.
    method Restart()
      modifies this`value, this`status
      ensures Now() == State(resetValue, old(nrOverflows), false)
    {
      value, status := resetValue, false;
    }

    /** Stop, read, restart and clear the overflows noted: what one iteration of the read loops does. */
    method Read() returns (sample: nat)
      modifies this`value, this`nrOverflows
      ensures sample == Visible(old(Now()), w)
      ensures Now() == State(resetValue, 0, old(status))
    {
      OneMoreWrap(w, 0);
      sample := value;
      if nrOverflows != 0 {
        sample := sample + Wraps(w, nrOverflows);
        nrOverflows := 0;
      }
      value := resetValue;
    }
  }

  ghost function ResetsOf(cs: seq<Counter>): (r: seq<nat>)
    ensures |r| == |cs| && forall l | 0 <= l < |r| :: r[l] == cs[l].resetValue
  {
    seq(|cs|, l requires 0 <= l < |cs| => cs[l].resetValue)
  }

  ghost function StatesOf(cs: seq<Counter>): (r: seq<State>)
    reads cs
    ensures |r| == |cs| && forall l | 0 <= l < |r| :: r[l] == cs[l].Now()
  {
    seq(|cs|, l requires 0 <= l < |cs| reads cs => cs[l].Now())
  }

  /** A counter with one more wrap noted, if there was one. */
  function Noted(s: State, wrap: bool): State {
    if wrap then s.(noted := s.noted + 1) else s
  }

  /** The counters with their status bits cleared. */
  function Cleared(ss: seq<State>): (r: seq<State>)
    ensures |r| == |ss| && forall l | 0 <= l < |r| :: r[l] == ss[l].(status := false)
  {
    seq(|ss|, l requires 0 <= l < |ss| => ss[l].(status := false))
  }

  /** Each counter has been read and restarted, and the overflows noted for it are cleared. */
  ghost predicate AllRead(cf: Config, ss: seq<State>, samples: seq<nat>, read: seq<State>) {
    && |samples| == |read| == |ss| == |cf.resets| && cf.w > 0
    && forall l | 0 <= l < |ss| :: samples[l] == Visible(ss[l], cf.w) && read[l] == State(cf.resets[l], 0, ss[l].status)
  }

  /** Whether the handler counts a wrap in the mask for this counter; ebs is the one used for sampling. */
  predicate Counts(cs: seq<Counter>, ebs: int, mask: nat, l: nat)
    requires l < |cs|
  {
    l != ebs && Bit(mask, cs[l].phys)
  }

  /** The counters once the handler has counted the wraps in the mask. */
  ghost function WithNoted(cs: seq<Counter>, ebs: int, mask: nat, ss: seq<State>): (r: seq<State>)
    requires |ss| == |cs|
    ensures |r| == |ss| && forall l: nat | l < |r| :: r[l] == Noted(ss[l], Counts(cs, ebs, mask, l))
  {
    seq(|ss|, l requires 0 <= l < |ss| => Noted(ss[l], Counts(cs, ebs, mask, l)))
  }

  /** core_experiment_t */
  class CoreExperiment {
    const maxExps: nat            // MAX_LL_EXPS, which depends on the platform
    const w: nat                  // pmc_width_mask + 1
    const logToPhys: array<int>
    const physToLog: array<int>
    var counters: seq<Counter>    // the low-level descriptors, by logical counter
    var usedPmcs: nat
    var ebsIdx: int
    var needSetup: bool

    ghost predicate Arrays() {
      w > 0 && logToPhys.Length == physToLog.Length == maxExps && logToPhys != physToLog
    }

    /** The tables are inverse to each other, and the descriptors agree with them. */
    ghost predicate Shape()
      reads this`counters, this`usedPmcs, this`ebsIdx, logToPhys, physToLog
    {
      && Arrays()
      && |counters| == Rank(usedPmcs, maxExps)
      && Inverse(logToPhys[..], physToLog[..], usedPmcs, maxExps)
      && Matching()
      && -1 <= ebsIdx < |counters|
    }

    ghost predicate Matching()
      requires Arrays()
      reads this`counters, logToPhys
    {
      && |counters| <= maxExps && NoDuplicates(counters)
      && forall l | 0 <= l < |counters| ::
           counters[l].phys == logToPhys[l] && counters[l].w == w && counters[l].resetValue < w
    }

    /** What stays the same about the counters while they run. */
    ghost function Cfg(): (cf: Config)
      reads this`counters, this`ebsIdx
      ensures |cf.resets| == |counters| && cf.w == w && cf.ebs == ebsIdx
      ensures forall l | 0 <= l < |counters| :: cf.resets[l] == counters[l].resetValue
    {
      Config(w, ebsIdx, ResetsOf(counters))
    }

    ghost function View(): (ss: seq<State>)
      reads this`counters, counters
      ensures |ss| == |counters| && forall l | 0 <= l < |ss| :: ss[l] == counters[l].Now()
    {
      StatesOf(counters)
    }

    ghost predicate Valid()
      reads this, logToPhys, physToLog, counters
    {
      Shape() && Ok(Cfg(), View())
    }

    /** The counters are in these states. */
    ghost predicate At(cf: Config, ss: seq<State>)
      reads this`counters, this`usedPmcs, this`ebsIdx, logToPhys, physToLog, counters
    {
      Shape() && cf == Cfg() && ss == View() && Ok(cf, ss)
    }

    function ResetOf(c: PmcConfig): (r: nat)
      requires w > 0
      ensures r < w
    {
      if c.ebsMode then NegMasked(c.resetValue, w) else 0
    }

    /** The descriptors and the counter for event-based sampling that the first n configurations ask for. */
    ghost predicate Configured(cfg: seq<PmcConfig>, n: nat)
      requires Arrays() && n <= |cfg|
      reads this
    {
      && ebsIdx == (var e := LastEbs(cfg, usedPmcs, n); if e == -1 then -1 else Rank(usedPmcs, e))
      && (forall l: nat | l < |counters| :: counters[l].phys < n && counters[l].resetValue == ResetOf(cfg[counters[l].phys]))
    }

    /** Nothing has been counted yet. */
    ghost predicate Fresh()
      reads this, counters
    {
      forall l: nat | l < |counters| :: counters[l].Now() == State(0, 0, false)
    }

    /** do_setup_pmcs has dealt with the first n bits of the mask. */
    ghost predicate SetUp(cfg: seq<PmcConfig>, n: nat)
      reads this, logToPhys, physToLog, counters
    {
      && Arrays() && n <= maxExps == |cfg|
      && |counters| == Rank(usedPmcs, n) && Inverse(logToPhys[..], physToLog[..], usedPmcs, n)
      && Matching() && Configured(cfg, n) && Fresh()
    }

    /** Nothing is set up. */
    ghost predicate Blank(cfg: seq<PmcConfig>)
      reads this, logToPhys, physToLog
    {
      && Arrays() && maxExps == |cfg| && counters == [] && ebsIdx == -1
      && forall i | 0 <= i < maxExps :: logToPhys[i] == physToLog[i] == -1
    }

    lemma SetUpNone(cfg: seq<PmcConfig>)
      requires Blank(cfg)
      ensures SetUp(cfg, 0)
    {
      InverseNone(logToPhys[..], physToLog[..], usedPmcs);
      hide Inverse;
    }

    lemma SetUpShape(cfg: seq<PmcConfig>)
      requires SetUp(cfg, maxExps)
      ensures Shape()
    {
      hide Inverse;
      var e := LastEbs(cfg, usedPmcs, maxExps);
      if e >= 0 {
        RankMonotone(usedPmcs, e, maxExps);
      }
    }

    lemma SetUpValid(cfg: seq<PmcConfig>)
      requires SetUp(cfg, maxExps)
      ensures Valid()
    {
      hide Inverse;
      SetUpShape(cfg);
    }

    lemma SkipCounter(cfg: seq<PmcConfig>, i: nat)
      requires SetUp(cfg, i) && i < maxExps && !Bit(usedPmcs, i)
      ensures SetUp(cfg, i + 1)
    {
      hide Inverse;
      hide NegMasked;
      InverseSkip(logToPhys[..], physToLog[..], usedPmcs, i);
    }

    // The body of the loop of do_setup_pmcs, for a counter that is used.
    method AddCounter(cfg: seq<PmcConfig>, i: nat)
      requires SetUp(cfg, i) && i < maxExps && Bit(usedPmcs, i)
      modifies this`counters, this`ebsIdx, logToPhys, physToLog
      ensures SetUp(cfg, i + 1)
    {
      hide Inverse;
      hide NegMasked;
      InverseNext(logToPhys[..], physToLog[..], usedPmcs, i);
      ghost var l2p, p2l := logToPhys[..], physToLog[..];
      var size := |counters|;
      var c := new Counter(i, w, ResetOf(cfg[i]));
      if cfg[i].ebsMode {
        ebsIdx := size;
      }
      counters := counters + [c];
      logToPhys[size] := i;
      physToLog[i] := size;
      assert logToPhys[..] == l2p[size := i] && physToLog[..] == p2l[i := size];
    }

    method SetupNext(cfg: seq<PmcConfig>, i: nat)
      requires SetUp(cfg, i) && i < maxExps
      modifies this`counters, this`ebsIdx, logToPhys, physToLog
      ensures SetUp(cfg, i + 1)
    {
      hide *;
      if Bit(usedPmcs, i) {
        AddCounter(cfg, i);
      } else {
        SkipCounter(cfg, i);
      }
    }

    /** do_setup_pmcs */
    method SetupPmcs(cfg: seq<PmcConfig>)
      requires Blank(cfg)
      modifies this`counters, this`ebsIdx, logToPhys, physToLog
      ensures SetUp(cfg, maxExps) && Valid()
    {
      SetUpNone(cfg);
      hide *;
      for i := 0 to maxExps
        invariant SetUp(cfg, i)
      {
        SetupNext(cfg, i);
      }
      SetUpValid(cfg);
    }

    method ClearTables(cfg: seq<PmcConfig>)
      requires Arrays() && maxExps == |cfg| && counters == [] && ebsIdx == -1
      modifies logToPhys, physToLog
      ensures Blank(cfg)
    {
      for i := 0 to maxExps
        invariant forall k | 0 <= k < i :: logToPhys[k] == physToLog[k] == -1
      {
        logToPhys[i], physToLog[i] := -1, -1;
      }
    }

    /** init_core_experiment_t and do_setup_pmcs */
    constructor (cfg: seq<PmcConfig>, usedPmcsMask: nat, width: nat)
      ensures maxExps == |cfg| && w == Pow2(width) && usedPmcs == usedPmcsMask && needSetup
      ensures Valid() && SetUp(cfg, maxExps)
      ensures fresh(logToPhys) && fresh(physToLog)
    {
      var n := |cfg|;
      maxExps, w := n, Pow2(width);
      logToPhys, physToLog := new int[n], new int[n];
      counters, usedPmcs, ebsIdx, needSetup := [], usedPmcsMask, -1, true;
      new;
      hide SetUp;
      hide Valid;
      ClearTables(cfg);
      SetupPmcs(cfg);
    }

    /** The counter i bits into the mask has this logical index and these tables entries; bits that are clear have none. */
    lemma LogicalIndex(i: nat)
      requires Shape() && i < maxExps
      ensures physToLog[i] == if Bit(usedPmcs, i) then Rank(usedPmcs, i) else -1
      ensures Bit(usedPmcs, i) ==> 0 <= physToLog[i] < |counters| && counters[physToLog[i]].phys == i
      ensures forall l | 0 <= l < |counters| :: counters[l].phys == i ==> physToLog[i] == l
    {
      var l2p, p2l := logToPhys[..], physToLog[..];
      assert p2l[i] == physToLog[i];
      if Bit(usedPmcs, i) {
        assert l2p[p2l[i]] == i;
      }
      forall l | 0 <= l < |counters| && counters[l].phys == i ensures physToLog[i] == l {
        assert l2p[l] == i && p2l[l2p[l]] == l;
      }
    }

    /** A sampling counter starts as far below a wrap as its threshold says, and any other one at zero. */
    lemma ResetValues(cfg: seq<PmcConfig>, l: nat)
      requires SetUp(cfg, maxExps) && l < |counters|
      ensures counters[l].phys < maxExps && counters[l].resetValue < w
      ensures cfg[counters[l].phys].ebsMode ==> exists k: int :: counters[l].resetValue + cfg[counters[l].phys].resetValue == k * w
      ensures !cfg[counters[l].phys].ebsMode ==> counters[l].resetValue == 0
    {
      hide Inverse;
      var t := cfg[counters[l].phys].resetValue;
      DivMod(-t, w);
      MulSub(0, (-t) / w, w);
      assert NegMasked(t, w) + t == (0 - (-t) / w) * w;
    }

    /** The handler adds back the threshold the sampling counter was configured with, exactly when it fits the counter. */
    lemma SamplingThreshold(cfg: seq<PmcConfig>)
      requires SetUp(cfg, maxExps) && ebsIdx != -1
      ensures Shape() && cfg[counters[ebsIdx].phys].ebsMode
      ensures NegMasked(counters[ebsIdx].resetValue, w) == cfg[counters[ebsIdx].phys].resetValue
              <==> cfg[counters[ebsIdx].phys].resetValue < w
      ensures counters[ebsIdx].resetValue == 0 <==> cfg[counters[ebsIdx].phys].resetValue % w == 0
    {
      SetUpShape(cfg);
      var e := LastEbs(cfg, usedPmcs, maxExps);
      LogicalIndex(e);
      hide Inverse;
      var t := cfg[e].resetValue;
      ThresholdRecovered(t, w);
      NegMaskedIs(NegMasked(t, w), w);
    }

    // -------------------------------------------------------------------------
    // Events, reads and overflow interrupts
    // -------------------------------------------------------------------------

    /** One event on a counter. */
    method Event(l: nat)
      requires Valid() && l < |counters|
      modifies counters[l]
      ensures Valid() && View() == Next(Cfg(), old(View()), Happen(l)).states
    {
      ghost var cf, ss := Cfg(), View();
      ValidAt(cf, ss);
      AtShape(cf, ss);
      CounterOk(l);
      hide *;
      counters[l].Event();
      HappenedAt(cf, ss, l);
      AtView(cf, Next(cf, ss, Happen(l)).states);
    }

    lemma HappenedAt(cf: Config, ss: seq<State>, l: nat)
      requires Shape() && cf == Cfg() && Ok(cf, ss) && |ss| == |counters| && l < |ss|
      requires counters[l].Now() == Counted(ss[l], w)
      requires forall k: nat | k < |ss| && k != l :: counters[k].Now() == ss[k]
      ensures At(cf, Next(cf, ss, Happen(l)).states)
    {
      InRange();
      hide Shape;
      assert View() == ss[l := Counted(ss[l], w)];
    }

    lemma CounterOk(l: nat)
      requires Shape() && l < |counters|
      ensures counters[l].resetValue < counters[l].w == w && counters[l].phys == logToPhys[l] < maxExps
      ensures Bit(usedPmcs, counters[l].phys) && counters[l].phys >= 0
      ensures forall k: nat | k < |counters| && k != l :: counters[k] != counters[l]
    {
      assert logToPhys[..][l] == logToPhys[l];
    }

    lemma InRange()
      requires Shape()
      ensures Arrays() && -1 <= ebsIdx < |counters| <= maxExps
    {
    }

    /** mc_restart_all_counters: the overflows noted stay as they are. */
    method RestartAll()
      requires Shape()
      modifies this`needSetup, counters
      ensures Shape() && !needSetup
      ensures forall l: nat | l < |counters| :: counters[l].Now() == State(counters[l].resetValue, old(counters[l].nrOverflows), false)
    {
      hide Shape;
      for i := 0 to |counters|
        invariant Shape()
        invariant forall l: nat | l < |counters| ::
                    if l < i then counters[l].Now() == State(counters[l].resetValue, old(counters[l].nrOverflows), false)
                    else counters[l].Now() == old(counters[l].Now())
      {
        CounterOk(i);
        counters[i].Restart();
      }
      needSetup := false;
    }

    /** do_count_mc_experiment_buffer: the first call only starts the counters; later ones read and restart them all. */
    method CountBuffer() returns (ok: bool, samples: seq<nat>)
      requires Valid()
      modifies this`needSetup, counters
      ensures Valid() && !needSetup && (ok <==> !old(needSetup))
      ensures ok ==> Outcome(View(), samples) == Next(Cfg(), old(View()), Collect)
      ensures !ok ==> forall l: nat | l < |counters| :: counters[l].Now() == State(counters[l].resetValue, old(counters[l].nrOverflows), false)
    {
      ghost var cf, ss := Cfg(), View();
      ValidAt(cf, ss);
      hide *;
      ok := !needSetup;
      if needSetup {
        FirstStart(cf, ss);
        samples := [];
      } else {
        samples := ReadAndRestart(cf, ss);
        AtView(cf, Next(cf, ss, Collect).states);
      }
    }

    // The first call: only the overflows noted are left.
    method FirstStart(ghost cf: Config, ghost ss: seq<State>)
      requires At(cf, ss)
      modifies this`needSetup, counters
      ensures Valid() && Cfg() == cf && !needSetup
      ensures forall l: nat | l < |counters| :: counters[l].Now() == State(counters[l].resetValue, old(counters[l].nrOverflows), false)
    {
      AtShape(cf, ss);
      hide Shape;
      hide At;
      RestartAll();
      StillOk();
      NowAt(cf, View());
      AtView(cf, View());
    }

    // The monitoring procedure.
    method ReadAndRestart(ghost cf: Config, ghost ss: seq<State>) returns (samples: seq<nat>)
      requires At(cf, ss)
      modifies counters
      ensures At(cf, Next(cf, ss, Collect).states) && samples == Next(cf, ss, Collect).samples
    {
      AtShape(cf, ss);
      hide *;
      ghost var read;
      samples, read := ReadAll(cf, ss);
      ResetOverflowStatus(read);
      CollectedAt(cf, ss, samples, read);
    }

    lemma CollectedAt(cf: Config, ss: seq<State>, samples: seq<nat>, read: seq<State>)
      requires Shape() && cf == Cfg() && Ok(cf, ss) && AllRead(cf, ss, samples, read) && View() == Cleared(read)
      ensures At(cf, Next(cf, ss, Collect).states) && samples == Next(cf, ss, Collect).samples
    {
      hide Shape;
      hide Visible;
      IsCollect(cf, ss, View(), samples);
    }

    /** do_count_mc_experiment: the same, with the counts added to what the thread has accumulated. */
    method Count(pmcValues: array<nat>, updateAcum: bool) returns (ok: bool)
      requires Valid() && |counters| <= pmcValues.Length
      modifies this`needSetup, counters, pmcValues
      ensures Valid() && !needSetup && (ok <==> !old(needSetup))
      ensures ok ==> View() == Restarted(Cfg())
      ensures Added(old(pmcValues[..]), pmcValues[..], old(View()), ok && updateAcum)
    {
      ghost var cf, ss := Cfg(), View();
      ValidAt(cf, ss);
      hide *;
      ok := !needSetup;
      if needSetup {
        FirstStart(cf, ss);
        NothingAdded(pmcValues[..], ss);
      } else {
        ReadAndAdd(pmcValues, updateAcum, cf, ss);
        AtView(cf, Restarted(cf));
      }
    }

    /** What the thread has accumulated, after adding what the counters showed, or nothing. */
    ghost predicate Added(before: seq<nat>, after: seq<nat>, ss: seq<State>, adds: bool) {
      && |before| == |after| >= |ss|
      && forall l | 0 <= l < |after| :: after[l] == before[l] + if adds && l < |ss| then Visible(ss[l], w) else 0
    }

    lemma NothingAdded(values: seq<nat>, ss: seq<State>)
      requires |ss| <= |values|
      ensures Added(values, values, ss, false)
    {
    }

    method ReadAndAdd(pmcValues: array<nat>, updateAcum: bool, ghost cf: Config, ghost ss: seq<State>)
      requires At(cf, ss) && |ss| <= pmcValues.Length
      modifies counters, pmcValues
      ensures At(cf, Restarted(cf)) && Added(old(pmcValues[..]), pmcValues[..], ss, updateAcum)
    {
      AtShape(cf, ss);
      hide *;
      CollectIs(cf, ss);
      var samples := ReadAndRestart(cf, ss);
      AddSamples(samples, pmcValues, updateAcum, cf, ss);
    }

    method AddSamples(samples: seq<nat>, pmcValues: array<nat>, updateAcum: bool, ghost cf: Config, ghost ss: seq<State>)
      requires At(cf, Restarted(cf)) && |samples| == |ss| <= pmcValues.Length
      requires forall l: nat | l < |ss| :: samples[l] == Visible(ss[l], w)
      modifies pmcValues
      ensures At(cf, Restarted(cf)) && Added(old(pmcValues[..]), pmcValues[..], ss, updateAcum)
    {
      hide *;
      if updateAcum {
        Accumulate(samples, pmcValues);
      }
      SamplesAdded(old(pmcValues[..]), pmcValues[..], ss, samples, updateAcum);
    }

    lemma SamplesAdded(before: seq<nat>, after: seq<nat>, ss: seq<State>, samples: seq<nat>, adds: bool)
      requires |before| == |after| >= |ss| == |samples|
      requires forall l: nat | l < |ss| :: samples[l] == Visible(ss[l], w)
      requires forall l: nat | l < |after| :: after[l] == before[l] + if adds && l < |ss| then samples[l] else 0
      ensures Added(before, after, ss, adds)
    {
      hide Visible;
    }

    method Accumulate(samples: seq<nat>, pmcValues: array<nat>)
      requires |samples| <= pmcValues.Length
      modifies pmcValues
      ensures forall l | 0 <= l < |samples| :: pmcValues[l] == old(pmcValues[l]) + samples[l]
      ensures forall l | |samples| <= l < pmcValues.Length :: pmcValues[l] == old(pmcValues[l])
    {
      for i := 0 to |samples|
        invariant forall l | 0 <= l < i :: pmcValues[l] == old(pmcValues[l]) + samples[l]
        invariant forall l | i <= l < pmcValues.Length :: pmcValues[l] == old(pmcValues[l])
      {
        pmcValues[i] := pmcValues[i] + samples[i];
      }
    }

    // The loop that reads the counters.
    method ReadAll(ghost cf: Config, ghost ss: seq<State>) returns (samples: seq<nat>, ghost read: seq<State>)
      requires Shape() && cf == Cfg() && View() == ss && Ok(cf, ss)
      modifies counters
      ensures Shape() && cf == Cfg() && View() == read && AllRead(cf, ss, samples, read)
    {
      hide Shape;
      hide Visible;
      samples := [];
      for i := 0 to |counters|
        invariant Shape() && |samples| == i
        invariant forall l: nat | l < i ::
                    samples[l] == Visible(ss[l], w) && counters[l].Now() == State(counters[l].resetValue, 0, ss[l].status)
        invariant forall l: nat | i <= l < |counters| :: counters[l].Now() == ss[l]
      {
        CounterOk(i);
        var sample := counters[i].Read();
        samples := samples + [sample];
      }
      read := View();
    }

    // reset_overflow_status; also what acknowledging the interrupt does.
    method ResetOverflowStatus(ghost ss: seq<State>)
      requires Shape() && View() == ss
      modifies counters
      ensures Shape() && View() == Cleared(ss)
    {
      hide Shape;
      for i := 0 to |counters|
        invariant Shape()
        invariant forall l: nat | l < |counters| :: counters[l].Now() == if l < i then ss[l].(status := false) else ss[l]
      {
        CounterOk(i);
        counters[i].status := false;
      }
    }

    // -------------------------------------------------------------------------
    // The overflow handler
    // -------------------------------------------------------------------------

    /** The mask the interrupt hands over has the bits of the counters that wrapped. */
    ghost predicate Reports(mask: nat)
      reads this`counters, counters
    {
      forall l: nat | l < |counters| :: counters[l].status <==> Bit(mask, counters[l].phys)
    }

    // The body of the loop of update_overflow_status_non_ebs_pmcs.
    method NoteBit(filtered: nat, i: nat) returns (rest: nat)
      requires Shape() && i < maxExps
      modifies counters
      ensures Shape() && rest == ClearBit(filtered, i)
      ensures forall l: nat | l < |counters| :: counters[l].Now() == Noted(old(counters[l].Now()), counters[l].phys == i && Bit(filtered, i))
    {
      hide Shape;
      hide Bit;
      InRange();
      LogicalIndex(i);
      var log := physToLog[i];
      if Bit(filtered, i) && log != -1 {
        CounterOk(log);
        counters[log].nrOverflows := counters[log].nrOverflows + 1;
      }
      forall l: nat | l < |counters| ensures counters[l].phys == i <==> log == l {
        CounterOk(l);
        LogicalIndex(i);
      }
      rest := ClearBit(filtered, i);
    }

    /** update_overflow_status_non_ebs_pmcs: counts the wraps in the mask, except that of the counter used for sampling. */
    method UpdateOverflowStatusNonEbs(mask: nat, ghost ss: seq<State>) returns (fired: bool)
      requires Shape() && View() == ss
      modifies counters
      ensures Shape() && (fired <==> ebsIdx != -1 && Bit(mask, counters[ebsIdx].phys))
      ensures |ss| == |counters| && View() == WithNoted(counters, ebsIdx, mask, ss)
    {
      hide Shape;
      hide Bit;
      InRange();
      var physEbs: int := -1;
      var filtered := mask;
      if ebsIdx != -1 {
        CounterOk(ebsIdx);
        physEbs := logToPhys[ebsIdx];
        filtered := ClearBit(mask, physEbs);
      }
      ghost var todo := filtered;
      FilteredCounts(mask, filtered);
      var i := 0;
      while i < maxExps && filtered != 0
        invariant i <= maxExps && Shape()
        invariant forall k: nat :: Bit(filtered, k) <==> Bit(todo, k) && k >= i
        invariant forall l: nat | l < |counters| ::
                    counters[l].Now() == Noted(ss[l], Bit(todo, counters[l].phys) && counters[l].phys < i)
      {
        forall k: nat ensures Bit(ClearBit(filtered, i), k) <==> Bit(todo, k) && k >= i + 1 {
          ClearBitBits(filtered, i, k);
        }
        filtered := NoteBit(filtered, i);
        i := i + 1;
      }
      forall l: nat | l < |counters| ensures Bit(todo, counters[l].phys) ==> counters[l].phys < i {
        CounterOk(l);
        ZeroHasNoBit(counters[l].phys);
      }
      fired := physEbs != -1 && Bit(mask, physEbs);
    }

    /** Without the bit of the sampling counter, the mask has those of the wraps that are counted. */
    lemma FilteredCounts(mask: nat, filtered: nat)
      requires Shape()
      requires filtered == if ebsIdx == -1 then mask else ClearBit(mask, counters[ebsIdx].phys)
      ensures forall l: nat | l < |counters| :: Bit(filtered, counters[l].phys) <==> Counts(counters, ebsIdx, mask, l)
    {
      hide Shape;
      hide Bit;
      InRange();
      forall l: nat | l < |counters| ensures Bit(filtered, counters[l].phys) <==> Counts(counters, ebsIdx, mask, l) {
        CounterOk(l);
        LogicalIndex(counters[l].phys);
        if ebsIdx != -1 {
          ClearBitBits(mask, counters[ebsIdx].phys, counters[l].phys);
        }
      }
    }

    // What the handler does whether or not the counter used for sampling has fired.
    method NoteOverflows(mask: nat, ghost cf: Config, ghost ss: seq<State>) returns (fired: bool)
      requires At(cf, ss) && Reports(mask)
      modifies counters
      ensures At(cf, AllNoted(cf, ss)) && (fired <==> Fires(cf, ss)) && (fired ==> cf.ebs != -1)
    {
      AtShape(cf, ss);
      MaskOfStates(mask, ss);
      CountedIsDelivered(mask, cf, ss);
      hide *;
      ResetOverflowStatus(ss);
      fired := UpdateOverflowStatusNonEbs(mask, Cleared(ss));
      NowAt(cf, AllNoted(cf, ss));
    }

    /** When the mask has the bits of the wraps, noting those it counts delivers them. */
    lemma CountedIsDelivered(mask: nat, cf: Config, ss: seq<State>)
      requires Cfg() == cf && |ss| == |counters| && Ok(cf, ss)
      requires forall l: nat | l < |ss| :: ss[l].status <==> Bit(mask, counters[l].phys)
      ensures WithNoted(counters, ebsIdx, mask, Cleared(ss)) == AllNoted(cf, ss) && Ok(cf, AllNoted(cf, ss))
      ensures Fires(cf, ss) <==> ebsIdx != -1 && Bit(mask, counters[ebsIdx].phys)
      ensures cf.ebs == ebsIdx
    {
      hide Bit;
    }

    /** do_count_on_overflow */
    method OnOverflow(mask: nat) returns (ok: bool, samples: seq<nat>)
      requires Valid() && !needSetup && Reports(mask)
      modifies counters
      ensures Valid() && (ok <==> Fires(Cfg(), old(View())))
      ensures Outcome(View(), samples) == Next(Cfg(), old(View()), Interrupt)
    {
      ghost var cf, ss := Cfg(), View();
      ValidAt(cf, ss);
      hide *;
      ok := NoteOverflows(mask, cf, ss);
      if ok {
        samples := TakeSample(cf, ss);
      } else {
        IsInterrupt(cf, ss, AllNoted(cf, ss));
        samples := [];
        AtView(cf, AllNoted(cf, ss));
      }
    }

    // Read and restart the counters, and add what the sampling counter had left when it started.
    method TakeSample(ghost cf: Config, ghost ss: seq<State>) returns (samples: seq<nat>)
      requires Ok(cf, ss) && Fires(cf, ss) && At(cf, AllNoted(cf, ss))
      modifies counters
      ensures Valid() && Cfg() == cf && Outcome(View(), samples) == Next(cf, ss, Interrupt)
    {
      ghost var noted := AllNoted(cf, ss);
      AtShape(cf, noted);
      InRange();
      hide *;
      CollectIs(cf, noted);
      IsInterrupt(cf, ss, noted);
      samples := ReadAndRestart(cf, noted);
      samples := samples[ebsIdx := samples[ebsIdx] + NegMasked(counters[ebsIdx].resetValue, w)];
      AtView(cf, Next(cf, noted, Collect).states);
    }

    lemma ValidAt(cf: Config, ss: seq<State>)
      requires Valid() && cf == Cfg() && ss == View()
      ensures At(cf, ss) && -1 <= cf.ebs < |ss| == |counters| && Ok(cf, ss)
    {
    }

    lemma AtShape(cf: Config, ss: seq<State>)
      requires At(cf, ss)
      ensures Shape() && cf == Cfg() && ss == View() && Ok(cf, ss) && -1 <= ebsIdx < |ss|
    {
    }

    lemma NowAt(cf: Config, ss: seq<State>)
      requires Shape() && cf == Cfg() && ss == View() && Ok(cf, ss)
      ensures At(cf, ss)
    {
    }

    lemma AtView(cf: Config, ss: seq<State>)
      requires At(cf, ss)
      ensures Valid() && View() == ss && Cfg() == cf
    {
    }

    lemma MaskOfStates(mask: nat, ss: seq<State>)
      requires Reports(mask) && ss == View()
      ensures forall l: nat | l < |ss| :: ss[l].status <==> Bit(mask, counters[l].phys)
    {
    }

    lemma StillOk()
      requires Shape() && forall l: nat | l < |counters| :: counters[l].value < w && (l == ebsIdx ==> counters[l].nrOverflows == 0)
      ensures Ok(Cfg(), View())
    {
      InRange();
      forall l: nat | l < |counters| ensures counters[l].resetValue < w {
        CounterOk(l);
      }
      hide Shape;
    }
  }
}

/** One adaptive scan over the three tiers (auto_uv/main_loop.py): each tier descends, is
    verified, and may fail or be discarded; Performance may adopt Balanced's descent. */
module AdaptiveTiers {
  import opened VoltageSearch
  import opened VoltageSweep
  import opened Wrappers

  const ADAPTIVE_TIER_ORDER := [Efficiency, Balanced, Performance]
  const REUSE_VOLTAGE_TOLERANCE := 10
  const REUSE_CLOCK_TOLERANCE := 15

  // ---------------------------------------------------------------------------
  // What happens to a tier
  // ---------------------------------------------------------------------------

  /** The kinds of error a stage can end with.  All but the ordinary one end the scan. */
  datatype Error = Ordinary | Critical | PowerLimitNotApplied | ChoiceDiscarded | Unexpected {
    predicate CannotContinue() {
      !Ordinary?
    }
  }

  type Plan = seq<(int, int)>

  /** A probe of the finished tier: its point, the curve applied, the measured clock. */
  datatype Tested = Tested(voltage: int, clock: int, plan: Option<Plan>, measuredClock: Option<real>)

  datatype ScanResult = ScanResult(voltage: int, clock: int, probes: seq<Tested>)

  datatype Checkpoint = Missing | Verified(result: ScanResult, regime: Regime) | Condemned

  datatype Stage<T> = Failed(error: Error) | Done(value: T)

  datatype Baseline = Baseline(candidate: Candidate, outcome: Option<Outcome>, minSearch: int, reference: Option<real>)

  /** The power limit, memory offset and rising tail a tier runs under. */
  datatype Regime = Regime(tail: nat, powerLimit: Option<int>, memoryOffset: int)

  datatype Finish = Completed(result: ScanResult) | DiscardedByUser | NotVerified(error: Error)

  /** What the outside world answers while one tier is scanned: `recovery` is the candidate of a
      resumed descent, `genuine` whether a failed probe condemns its voltage, `broken` that the
      probe of that number never answered, `finish` the final selection and verification of a
      candidate, on the donated plan or else on the one built for it. */
  datatype Answers = Answers(checkpoint: Checkpoint, setup: Stage<Regime>, baseline: Stage<Baseline>,
                             recovery: Option<Candidate>, prober: (nat, Candidate) -> Outcome, genuine: bool,
                             broken: Option<(nat, Error)>, finish: (Candidate, Option<Plan>) -> Finish)

  datatype Event = Started(tier: Tier) | DescentReused(tier: Tier) | TierCompleted(tier: Tier) | Skipped(tier: Tier)

  // ---------------------------------------------------------------------------
  // Donating Balanced's descent
  // ---------------------------------------------------------------------------

  /** Balanced's verified endpoint and the inputs it was reached under; the baseline is not
      known when it comes out of a checkpoint. */
  datatype Donation = Donation(candidate: Candidate, plan: Plan, measuredClock: Option<real>, regime: Regime,
                               baseline: Option<Candidate>)

  predicate IsVerifiedProbe(r: ScanResult, t: Tested) {
    t.plan.Some? && t.voltage == r.voltage && t.clock == r.clock
  }

  /** Probe `k` is the last one at the verified point. */
  ghost predicate LastVerifiedAt(r: ScanResult, k: nat) {
    k < |r.probes| && IsVerifiedProbe(r, r.probes[k]) && forall j | k < j < |r.probes| ::
      !IsVerifiedProbe(r, r.probes[j])
  }

  /** A donation of `r` carries its point, and the plan and clock of the last probe there. */
  ghost predicate DonatedBy(r: ScanResult, d: Donation) {
    && d.candidate == Candidate(r.voltage, r.clock)
    && exists k: nat ::
      LastVerifiedAt(r, k) && r.probes[k].plan == Some(d.plan) && r.probes[k].measuredClock == d.measuredClock
  }

  predicate EndsVerified(r: ScanResult) {
    r.probes != [] && IsVerifiedProbe(r, r.probes[|r.probes| - 1])
  }

  /** The end of a completed Balanced tier: its last probe, if that is the verified one. */
  method DonationFromScan(r: ScanResult, regime: Regime, baseline: Candidate) returns (d: Option<Donation>)
    ensures d.Some? ==> DonatedBy(r, d.value) && d.value.regime == regime && d.value.baseline == Some(baseline)
    ensures d.Some? <==> EndsVerified(r)
  {
    d := None;
    if r.probes != [] && IsVerifiedProbe(r, r.probes[|r.probes| - 1]) {
      var t := r.probes[|r.probes| - 1];
      assert LastVerifiedAt(r, |r.probes| - 1);
      d := Some(Donation(Candidate(t.voltage, t.clock), t.plan.value, t.measuredClock, regime, Some(baseline)));
    }
  }

  /** `balanced_donation_from_completed_tier`: the last probe that is the verified one. */
  method DonationFromCheckpoint(r: ScanResult, regime: Regime) returns (d: Option<Donation>)
    ensures d.Some? ==> DonatedBy(r, d.value) && d.value.regime == regime && d.value.baseline.None?
    ensures d.None? <==> forall t | t in r.probes :: !IsVerifiedProbe(r, t)
  {
    var n := |r.probes|;
    while n > 0
      invariant 0 <= n <= |r.probes|
      invariant forall k | n <= k < |r.probes| :: !IsVerifiedProbe(r, r.probes[k])
    {
      n := n - 1;
      var t := r.probes[n];
      if IsVerifiedProbe(r, t) {
        assert t in r.probes && LastVerifiedAt(r, n);
        return Some(Donation(Candidate(r.voltage, r.clock), t.plan.value, t.measuredClock, regime, None));
      }
    }
    return None;
  }

  predicate Near(a: int, b: int, tolerance: int) {
    -tolerance <= a - b <= tolerance
  }

  /** `performance_can_reuse_balanced_descent` */
  predicate CanReuse(d: Donation, regime: Regime, baseline: Candidate) {
    && regime.tail == d.regime.tail
    && PositiveOrNone(regime.powerLimit) == PositiveOrNone(d.regime.powerLimit)
    && (d.baseline.Some? ==>
          && Near(baseline.voltage, d.baseline.value.voltage, REUSE_VOLTAGE_TOLERANCE)
          && Near(baseline.target, d.baseline.value.target, REUSE_CLOCK_TOLERANCE))
    && regime.memoryOffset == d.regime.memoryOffset
    && d.measuredClock.Some?
  }

  ghost predicate NotPositive(watts: Option<int>) {
    watts.None? || watts.value <= 0
  }

  /** The same regime, a missing power limit being as good as one that is not positive; a baseline, where it
      is known, within 10 mV and 15 MHz; and a clock that was measured. */
  ghost predicate Matches(d: Donation, regime: Regime, baseline: Candidate) {
    && regime.tail == d.regime.tail && regime.memoryOffset == d.regime.memoryOffset
    && (regime.powerLimit == d.regime.powerLimit ||
      (NotPositive(regime.powerLimit) && NotPositive(d.regime.powerLimit)))
    && (d.baseline.Some? ==>
          && d.baseline.value.voltage - 10 <= baseline.voltage <= d.baseline.value.voltage + 10
          && d.baseline.value.target - 15 <= baseline.target <= d.baseline.value.target + 15)
    && d.measuredClock.Some?
  }

  lemma CanReuseIffMatches(d: Donation, regime: Regime, baseline: Candidate)
    ensures CanReuse(d, regime, baseline) <==> Matches(d, regime, baseline)
  {
  }

  // ---------------------------------------------------------------------------
  // One tier
  // ---------------------------------------------------------------------------

  datatype Fate =
    | Reused(result: ScanResult)      // verified in an earlier, interrupted scan
    | Fresh(result: ScanResult)
    | Dropped                         // discarded by the user
    | Errored(error: Error)
  {
    predicate IsCompleted() {
      Reused? || Fresh?
    }
  }

  /** What one tier did: the failures known when its descent began, the points it probed, the
      failure it added, the donation it took over, its regime and its baseline. */
  datatype Report = Report(tier: Tier, fate: Fate, known: seq<UnsafeEntry>, probes: seq<Probe>,
                           marked: seq<UnsafeEntry>, adopted: Option<Donation>, regime: Option<Regime>,
                           baseline: Option<Candidate>)

  /** `base_loop_settings` and the curve: what is the same for all tiers. */
  datatype Base = Base(bins: seq<int>, settings: Settings, closeToEdge: (seq<UnsafeEntry>, int, int) -> bool,
                       compare: (Summary, Summary) -> Comparison)

  function TierScan(base: Base, tier: Tier, b: Baseline, known: seq<UnsafeEntry>): Scan {
    Scan(base.bins,
         base.settings.(mode := tier, startVoltage := b.candidate.voltage, minSearch := Some(b.minSearch),
                        reference := b.reference),
         known, base.closeToEdge, base.compare)
  }

  function MarkFor(c: Candidate): UnsafeEntry {
    UnsafeEntry(Some(c.voltage), Some(c.target), None, None, false)
  }

  /** The mark of a failed candidate closes exactly its voltage and clock, lower voltages and higher clocks,
      for every tier. */
  lemma MarkCloses(c: Candidate, mode: Tier, v: int, clock: int)
    requires c.voltage > 0
    ensures MarkFor(c).Blocks(mode, v, clock) <==> v <= c.voltage && (c.target > 0 ==> clock >= c.target)
  {
  }

  /** No probe of the report was at a point the failures known to it had closed. */
  ghost predicate ProbesOpenPoints(rep: Report) {
    forall i | 0 <= i < |rep.probes| ::
      !Blocked(rep.known, rep.tier, rep.probes[i].candidate.voltage, rep.probes[i].candidate.target)
  }

  /** How a descent ends: a resumed one hands on the recovered candidate; any other one is a voltage
      descent that was given what is known, unless it broke off at a probe that never answered. */
  ghost predicate DescentEnds(base: Base, tier: Tier, b: Baseline, known: seq<UnsafeEntry>, a: Answers,
                              end: Stage<Candidate>, probes: seq<Probe>, marked: seq<UnsafeEntry>)
  {
    if a.recovery.Some? then end == Done(a.recovery.value) && probes == [] && marked == []
    else exists all, limits, r ::
      && IsDescent(TierScan(base, tier, b, known), b.candidate, b.outcome, a.prober, limits, all, r)
      && CutOff(a, all, r, end, probes, marked)
  }

  ghost predicate CutOff(a: Answers, all: seq<Probe>, r: Result, end: Stage<Candidate>, probes: seq<Probe>,
                         marked: seq<UnsafeEntry>)
  {
    if a.broken.Some? && a.broken.value.0 < |all| then
      end == Failed(a.broken.value.1) && probes == all[..a.broken.value.0] && marked == []
    else
      && probes == all
      && marked == (if a.genuine && r.stop.ProbeFailed? && all != [] then [MarkFor(all[|all| - 1].candidate)] else [])
      && end == if r.raised then Failed(Critical) else Done(r.stable)
  }

  /** `run_adaptive_tier_descent` */
  method RunDescent(base: Base, tier: Tier, b: Baseline, known: seq<UnsafeEntry>, a: Answers)
    returns (end: Stage<Candidate>, probes: seq<Probe>, marked: seq<UnsafeEntry>)
    requires ValidBins(base.bins)
    ensures DescentEnds(base, tier, b, known, a, end, probes, marked)
  {
    probes, marked := [], [];
    if a.recovery.Some? {
      return Done(a.recovery.value), probes, marked;
    }
    var r, all, unsafe;
    ghost var limits;
    r, all, unsafe, limits := RunBaseUvLoop(TierScan(base, tier, b, known), b.candidate, b.outcome, a.prober);
    if a.broken.Some? && a.broken.value.0 < |all| {
      end, probes := Failed(a.broken.value.1), all[..a.broken.value.0];
    } else {
      probes := all;
      if unsafe.Some? && a.genuine {
        marked := [MarkFor(unsafe.value)];
      }
      end := if r.raised then Failed(Critical) else Done(r.stable);
    }
    assert CutOff(a, all, r, end, probes, marked);
  }

  /** A bin below the baseline, down to the tier's minimum, at the clock of the baseline. */
  ghost predicate InTierRange(base: Base, b: Baseline, c: Candidate) {
    c.voltage in base.bins && b.minSearch <= c.voltage < b.candidate.voltage && c.target == b.candidate.target
  }

  lemma DescentStaysInRange(base: Base, tier: Tier, b: Baseline, known: seq<UnsafeEntry>, a: Answers,
                            limits: Limits, all: seq<Probe>, r: Result)
    requires IsDescent(TierScan(base, tier, b, known), b.candidate, b.outcome, a.prober, limits, all, r)
    ensures forall p | p in all :: InTierRange(base, b, p.candidate)
  {
    DescentKeepsRange(TierScan(base, tier, b, known), b.candidate, b.outcome, limits, all, r.stop);
  }

  /** The steps of a tier's descent are counted from its baseline's voltage, and so is the wall. */
  lemma TierDescendsFromBaseline(base: Base, tier: Tier, b: Baseline, known: seq<UnsafeEntry>, a: Answers,
                                 limits: Limits, all: seq<Probe>, r: Result)
    requires IsDescent(TierScan(base, tier, b, known), b.candidate, b.outcome, a.prober, limits, all, r)
    ensures all != [] ==>
      StepsDown(base.bins, b.candidate.voltage, b.candidate.voltage, limits.minimum, limits.floor,
                all[0].candidate.voltage)
    ensures forall i | 0 < i < |all| ::
      StepsDown(base.bins, b.candidate.voltage, all[i - 1].candidate.voltage, limits.minimum, None,
                all[i].candidate.voltage)
    ensures r.stop.WallReached? ==>
      CameDown(b.candidate.voltage, all[|all| - 1].candidate.voltage, base.settings.minDropPct)
  {
    var scan := TierScan(base, tier, b, known);
    if all != [] {
      assert ProbedWell(scan, b.candidate, limits, all, 0) && all[..0] == [];
    }
    forall i | 0 < i < |all|
      ensures StepsDown(base.bins, b.candidate.voltage, all[i - 1].candidate.voltage, limits.minimum, None,
                        all[i].candidate.voltage)
    {
      assert ProbedWell(scan, b.candidate, limits, all, i);
    }
    if r.stop.WallReached? {
      WallIffNoGain(scan, b.candidate, b.outcome, all);
    }
  }

  lemma DescentProbesWell(base: Base, tier: Tier, b: Baseline, known: seq<UnsafeEntry>, a: Answers,
                          end: Stage<Candidate>, probes: seq<Probe>, marked: seq<UnsafeEntry>)
    requires DescentEnds(base, tier, b, known, a, end, probes, marked)
    ensures forall i | 0 <= i < |probes| ::
      !Blocked(known, tier, probes[i].candidate.voltage, probes[i].candidate.target)
    ensures forall p | p in probes :: InTierRange(base, b, p.candidate)
  {
    if a.recovery.None? {
      var scan := TierScan(base, tier, b, known);
      var all, limits, r :| IsDescent(scan, b.candidate, b.outcome, a.prober, limits, all, r)
                            && CutOff(a, all, r, end, probes, marked);
      DescentProbesAreOpen(scan, b.candidate, limits, all);
      DescentStaysInRange(base, tier, b, known, a, limits, all, r);
      assert forall p | p in probes :: p in all;
    }
  }

  /** What a descent leaves: no probe at a closed point or out of range, only measured candidates handed
      on, and only failed probes marked. */
  lemma DescentIsSafe(base: Base, tier: Tier, b: Baseline, known: seq<UnsafeEntry>, a: Answers,
                      end: Stage<Candidate>, probes: seq<Probe>, marked: seq<UnsafeEntry>)
    requires DescentEnds(base, tier, b, known, a, end, probes, marked)
    ensures forall i | 0 <= i < |probes| ::
      !Blocked(known, tier, probes[i].candidate.voltage, probes[i].candidate.target)
    ensures forall p | p in probes :: InTierRange(base, b, p.candidate)
    ensures end.Done? ==> end.value == b.candidate || a.recovery == Some(end.value)
                          || exists p :: p in probes && p.outcome.passed && p.candidate == end.value
    ensures forall e | e in marked :: exists p :: p in probes && !p.outcome.passed && e == MarkFor(p.candidate)
  {
    DescentProbesWell(base, tier, b, known, a, end, probes, marked);
    if a.recovery.None? {
      var scan := TierScan(base, tier, b, known);
      var all, limits, r :| IsDescent(scan, b.candidate, b.outcome, a.prober, limits, all, r)
                            && CutOff(a, all, r, end, probes, marked);
      if end.Done? {
        ChosenIsWellChosen(scan, b.candidate, b.outcome, limits, all, r);
        ChosenWasMeasured(scan, b.candidate, b.outcome, limits, all, r);
      }
      if marked != [] {
        var last: Probe := all[|all| - 1];
        assert marked == [MarkFor(last.candidate)] && last in probes && !last.outcome.passed;
      }
    }
  }

  lemma DescentProbesAreOpen(scan: Scan, initial: Candidate, limits: Limits, probes: seq<Probe>)
    requires Descends(scan, initial, limits, probes)
    ensures forall i | 0 <= i < |probes| ::
      !Blocked(scan.entries, scan.settings.mode, probes[i].candidate.voltage, probes[i].candidate.target)
  {
    forall i | 0 <= i < |probes|
      ensures !Blocked(scan.entries, scan.settings.mode, probes[i].candidate.voltage, probes[i].candidate.target)
    {
      assert ProbedWell(scan, initial, limits, probes, i);
    }
  }

  /** A descent never hands on a curve that was not measured. */
  lemma ChosenWasMeasured(scan: Scan, initial: Candidate, initialOutcome: Option<Outcome>, limits: Limits,
                          probes: seq<Probe>, r: Result)
    requires WellChosen(scan, initial, initialOutcome, limits, probes, r)
    ensures r.stable == initial || exists p :: p in probes && p.outcome.passed && p.candidate == r.stable
  {
    if r.excluded.None? {
      var at :| SelectedAt(initial, initialOutcome, probes, at, r.stable, r.outcome);
      if at >= 0 {
        assert probes[at] in probes;
      }
    } else {
      assert probes[|probes| - 2] in probes;
    }
  }

  /** A donation in hand is Balanced's: its report is completed and the donation carries its
      verified point and plan. */
  ghost predicate FromBalanced(reports: seq<Report>, donation: Option<Donation>) {
    donation.Some? ==> exists b | 0 <= b < |reports| ::
      reports[b].tier.Balanced? && reports[b].fate.IsCompleted() && DonatedBy(reports[b].fate.result, donation.value)
  }

  /** A tier adopts the donation in hand exactly when it is Performance, under a matching regime and
      from a matching baseline; and then it makes no probe. */
  ghost predicate AdoptsRightly(rep: Report, donation: Option<Donation>) {
    && (rep.adopted.Some? <==>
          && rep.tier.Performance? && donation.Some? && rep.regime.Some? && rep.baseline.Some?
          && Matches(donation.value, rep.regime.value, rep.baseline.value))
    && (rep.adopted.Some? ==> rep.adopted == donation && rep.probes == [] && rep.marked == [])
  }

  /** What reached final selection was measured: the baseline, the recovered candidate, a passed
      probe of this descent, or the donated verified point. */
  ghost predicate Measured(rep: Report, a: Answers, c: Candidate) {
    || rep.baseline == Some(c)
    || a.recovery == Some(c)
    || (rep.adopted.Some? && rep.adopted.value.candidate == c)
    || exists p :: p in rep.probes && p.outcome.passed && p.candidate == c
  }

  /** The fate that the end of final selection and verification brings. */
  function Verdict(f: Finish): Fate {
    match f
    case Completed(result) => Fresh(result)
    case DiscardedByUser => Dropped
    case NotVerified(error) => Errored(error)
  }

  /** The report tells what happened: the checkpointed result, or what came of the stages. */
  ghost predicate Truthful(base: Base, rep: Report, a: Answers) {
    match a.checkpoint
    case Condemned => false
    case Verified(result, _) => rep.fate == Reused(result) && rep.regime.None? && rep.probes == [] && rep.marked == []
    case Missing => StagesTold(base, rep, a)
  }

  /** The stage that failed, or the verdict on the adopted point under its tested plan, or on what the
      descent handed on. */
  ghost predicate StagesTold(base: Base, rep: Report, a: Answers) {
    if a.setup.Failed? then
      rep.fate == Errored(a.setup.error) && rep.regime.None? && rep.probes == [] && rep.marked == []
    else
      && rep.regime == Some(a.setup.value)
      && if a.baseline.Failed? then
           rep.fate == Errored(a.baseline.error) && rep.baseline.None? && rep.probes == [] && rep.marked == []
         else
           && rep.baseline == Some(a.baseline.value.candidate)
           && if rep.adopted.Some? then
                rep.fate == Verdict(a.finish(rep.adopted.value.candidate, Some(rep.adopted.value.plan)))
              else DescentTold(base, rep, a)
  }

  ghost predicate DescentTold(base: Base, rep: Report, a: Answers)
    requires a.baseline.Done?
  {
    exists end ::
      && DescentEnds(base, rep.tier, a.baseline.value, rep.known, a, end, rep.probes, rep.marked)
      && rep.fate == if end.Failed? then Errored(end.error) else Verdict(a.finish(end.value, None))
  }

  /** What a truthful report implies: open points only, failed probes marked only, and only measured
      points verified. */
  lemma TruthfulIsSafe(base: Base, rep: Report, a: Answers, donation: Option<Donation>)
    requires Truthful(base, rep, a) && AdoptsRightly(rep, donation)
    ensures ProbesOpenPoints(rep)
    ensures rep.probes != [] ==> a.baseline.Done?
    ensures forall p | p in rep.probes :: InTierRange(base, a.baseline.value, p.candidate)
    ensures forall e | e in rep.marked :: exists p :: p in rep.probes && !p.outcome.passed && e == MarkFor(p.candidate)
    ensures rep.fate.Fresh? ==> exists c, plan :: Measured(rep, a, c) && a.finish(c, plan) == Completed(rep.fate.result)
    ensures rep.fate.Fresh? ==> rep.regime.Some? && rep.baseline.Some?
  {
    if a.checkpoint.Missing? && a.setup.Done? && a.baseline.Done? {
      if rep.adopted.Some? {
        assert Measured(rep, a, rep.adopted.value.candidate);
      } else {
        var end :| DescentEnds(base, rep.tier, a.baseline.value, rep.known, a, end, rep.probes, rep.marked)
                   && rep.fate == if end.Failed? then Errored(end.error) else Verdict(a.finish(end.value, None));
        DescentIsSafe(base, rep.tier, a.baseline.value, rep.known, a, end, rep.probes, rep.marked);
        if end.Done? {
          assert Measured(rep, a, end.value);
        }
      }
    }
  }

  /** The stages of one tier that is not checkpointed, up to its verdict. */
  method RunTier(base: Base, tier: Tier, known: seq<UnsafeEntry>, donation: Option<Donation>, a: Answers)
    returns (rep: Report)
    requires ValidBins(base.bins)
    ensures rep.tier == tier && rep.known == known && !rep.fate.Reused?
    ensures AdoptsRightly(rep, donation) && StagesTold(base, rep, a)
  {
    rep := Report(tier, Dropped, known, [], [], None, None, None);
    if a.setup.Failed? {
      rep := rep.(fate := Errored(a.setup.error));
      return;
    }
    rep := rep.(regime := Some(a.setup.value));
    if a.baseline.Failed? {
      rep := rep.(fate := Errored(a.baseline.error));
      return;
    }
    var b := a.baseline.value;
    rep := rep.(baseline := Some(b.candidate));
    if donation.Some? {
      CanReuseIffMatches(donation.value, a.setup.value, b.candidate);
    }
    if tier.Performance? && donation.Some? && CanReuse(donation.value, a.setup.value, b.candidate) {
      rep := rep.(adopted := donation,
                  fate := Verdict(a.finish(donation.value.candidate, Some(donation.value.plan))));
      return;
    }
    var end, probes, marked := RunDescent(base, tier, b, known, a);
    rep := rep.(probes := probes, marked := marked,
                fate := if end.Failed? then Errored(end.error) else Verdict(a.finish(end.value, None)));
    assert DescentTold(base, rep, a);
  }

  // ---------------------------------------------------------------------------
  // The run
  // ---------------------------------------------------------------------------

  datatype End = Returned(result: ScanResult) | Raised(error: Error) | CheckpointCondemned | AllDiscarded | NoProfile

  function ReportEvents(rep: Report): seq<Event> {
    match rep.fate
    case Reused(_) => []
    case Fresh(_) => StartEvents(rep) + [TierCompleted(rep.tier)]
    case Dropped => StartEvents(rep) + [Skipped(rep.tier)]
    case Errored(_) => StartEvents(rep) + [Skipped(rep.tier)]
  }

  function StartEvents(rep: Report): seq<Event> {
    [Started(rep.tier)] + if rep.adopted.Some? then [DescentReused(rep.tier)] else []
  }

  function AllEvents(reports: seq<Report>): seq<Event> {
    if reports == [] then [] else AllEvents(reports[..|reports| - 1]) + ReportEvents(reports[|reports| - 1])
  }

  function Marks(reports: seq<Report>): seq<UnsafeEntry> {
    if reports == [] then [] else Marks(reports[..|reports| - 1]) + reports[|reports| - 1].marked
  }

  ghost predicate CompletedAt(reports: seq<Report>, k: nat) {
    k < |reports| && reports[k].fate.IsCompleted()
  }

  ghost predicate FirstCompletedAt(reports: seq<Report>, k: nat) {
    CompletedAt(reports, k) && forall i | 0 <= i < k :: !CompletedAt(reports, i)
  }

  ghost predicate NoneCompleted(reports: seq<Report>) {
    forall i | 0 <= i < |reports| :: !CompletedAt(reports, i)
  }

  ghost predicate Stops(rep: Report) {
    rep.fate.Errored? && rep.fate.error != Ordinary
  }

  ghost predicate NoneStops(reports: seq<Report>) {
    forall i | 0 <= i < |reports| :: !Stops(reports[i])
  }

  /** The report that follows `before`: the next tier's, which knows the failures given at the
      start and those of the tiers before it, and adopts nothing but Balanced's verified descent. */
  ghost predicate GoodNext(initial: seq<UnsafeEntry>, before: seq<Report>, rep: Report) {
    && |before| < |ADAPTIVE_TIER_ORDER| && rep.tier == ADAPTIVE_TIER_ORDER[|before|]
    && NoneStops(before)
    && rep.known == initial + Marks(before)
    && ProbesOpenPoints(rep)
    && (exists donation :: AdoptsRightly(rep, donation) && FromBalanced(before, donation))
  }

  ghost predicate GoodRun(initial: seq<UnsafeEntry>, reports: seq<Report>) {
    reports == [] ||
      (&& GoodRun(initial, reports[..|reports| - 1])
       && GoodNext(initial, reports[..|reports| - 1], reports[|reports| - 1]))
  }

  lemma {:induction false} EveryReportIsGood(initial: seq<UnsafeEntry>, reports: seq<Report>, i: nat)
    requires GoodRun(initial, reports) && i < |reports|
    ensures GoodNext(initial, reports[..i], reports[i])
    decreases |reports|
  {
    if i < |reports| - 1 {
      EveryReportIsGood(initial, reports[..|reports| - 1], i);
      assert reports[..|reports| - 1][..i] == reports[..i];
    }
  }

  lemma GoodRunOneMore(initial: seq<UnsafeEntry>, reports: seq<Report>, rep: Report)
    requires GoodRun(initial, reports) && GoodNext(initial, reports, rep)
    ensures GoodRun(initial, reports + [rep])
  {
    assert (reports + [rep])[..|reports|] == reports;
  }

  lemma HistoryOneMore(reports: seq<Report>, rep: Report)
    ensures Marks(reports + [rep]) == Marks(reports) + rep.marked
    ensures AllEvents(reports + [rep]) == AllEvents(reports) + ReportEvents(rep)
  {
    assert (reports + [rep])[..|reports|] == reports;
  }

  lemma StillFromBalanced(reports: seq<Report>, rep: Report, donation: Option<Donation>)
    requires FromBalanced(reports, donation)
    ensures FromBalanced(reports + [rep], donation)
  {
    if donation.Some? {
      var b :| 0 <= b < |reports| && reports[b].tier.Balanced? && reports[b].fate.IsCompleted()
               && DonatedBy(reports[b].fate.result, donation.value);
      assert (reports + [rep])[b] == reports[b];
    }
  }

  /** What the loop knows about its variables. */
  ghost predicate Tracks(reports: seq<Report>, primary: Option<ScanResult>, lastError: Option<Error>, discarded: bool) {
    && (primary.None? <==> NoneCompleted(reports))
    && (primary.Some? ==> exists k: nat :: FirstCompletedAt(reports, k) && reports[k].fate.result == primary.value)
    && (lastError.Some? ==> exists i :: 0 <= i < |reports| && reports[i].fate == Errored(lastError.value))
    && (primary.None? && lastError.None? ==> forall i | 0 <= i < |reports| :: reports[i].fate.Dropped?)
    && (reports != [] && primary.None? && lastError.None? ==> discarded)
  }

  lemma TracksOneMore(reports: seq<Report>, rep: Report, primary: Option<ScanResult>, lastError: Option<Error>,
                      discarded: bool, primary': Option<ScanResult>, lastError': Option<Error>, discarded': bool)
    requires Tracks(reports, primary, lastError, discarded)
    requires primary' == if primary.None? && rep.fate.IsCompleted() then Some(rep.fate.result) else primary
    requires lastError' == if rep.fate.Errored? then Some(rep.fate.error) else lastError
    requires discarded' == (discarded || rep.fate.Dropped?)
    ensures Tracks(reports + [rep], primary', lastError', discarded')
  {
    var more := reports + [rep];
    assert forall i | 0 <= i < |reports| :: CompletedAt(more, i) <==> CompletedAt(reports, i);
    assert CompletedAt(more, |reports|) <==> rep.fate.IsCompleted();
    assert more[|reports|] == rep;
    if lastError.Some? && !rep.fate.Errored? {
      var i :| 0 <= i < |reports| && reports[i].fate == Errored(lastError.value);
      assert more[i].fate == Errored(lastError'.value);
    }
    if primary.Some? {
      var k: nat :| FirstCompletedAt(reports, k) && reports[k].fate.result == primary.value;
      assert FirstCompletedAt(more, k) && more[k].fate.result == primary'.value;
      assert CompletedAt(more, k);
    } else if rep.fate.IsCompleted() {
      assert FirstCompletedAt(more, |reports|) && more[|reports|].fate.result == primary'.value;
    }
  }

  /** The last report ended the run, or there are no more tiers. */
  ghost predicate RunOver(reports: seq<Report>) {
    |reports| == |ADAPTIVE_TIER_ORDER| || (reports != [] && Stops(reports[|reports| - 1]))
  }

  /** One tier: completed in the checkpoint, or started and scanned. */
  method ScanTier(base: Base, tier: Tier, known: seq<UnsafeEntry>, donation: Option<Donation>, a: Answers)
    returns (rep: Report, started: seq<Event>)
    requires ValidBins(base.bins) && !a.checkpoint.Condemned?
    ensures rep.tier == tier && rep.known == known && AdoptsRightly(rep, donation)
    ensures Truthful(base, rep, a)
    ensures rep.fate.Reused? <==> a.checkpoint.Verified?
    ensures started == if rep.fate.Reused? then [] else StartEvents(rep)
  {
    if a.checkpoint.Verified? {
      return Report(tier, Reused(a.checkpoint.result), known, [], [], None, None, None), [];
    }
    started := [Started(tier)];
    rep := RunTier(base, tier, known, donation, a);
    if rep.adopted.Some? {
      started := started + [DescentReused(tier)];
    }
  }

  /** What is kept of a tier's fate (`record_tier_failure` and the two ways a tier completes): no
      result at all when an error that ends the scan comes before any tier completed. */
  method Record(rep: Report, primary: Option<ScanResult>, lastError: Option<Error>, discarded: bool)
    returns (primary': Option<ScanResult>, lastError': Option<Error>, discarded': bool, closing: seq<Event>, stop: bool)
    ensures primary' == if primary.None? && rep.fate.IsCompleted() then Some(rep.fate.result) else primary
    ensures lastError' == if rep.fate.Errored? then Some(rep.fate.error) else lastError
    ensures discarded' == (discarded || rep.fate.Dropped?)
    ensures !rep.fate.Reused? && !(Stops(rep) && primary.None?) ==> StartEvents(rep) + closing == ReportEvents(rep)
    ensures rep.fate.Reused? ==> closing == []
    ensures stop <==> Stops(rep)
  {
    primary', lastError', discarded', closing, stop := primary, lastError, discarded, [], false;
    match rep.fate {
      case Errored(error) =>
        lastError', stop := Some(error), error.CannotContinue();
        if !stop || primary.Some? {
          closing := [Skipped(rep.tier)];
        }
      case Dropped =>
        discarded' := true;
        closing := [Skipped(rep.tier)];
      case Fresh(result) =>
        closing := [TierCompleted(rep.tier)];
        if primary.None? {
          primary' := Some(result);
        }
      case Reused(result) =>
        if primary.None? {
          primary' := Some(result);
        }
    }
  }

  /** What a tier does to the donation: a Balanced tier that failed withdraws it; one that completed,
      or was found completed in the checkpoint, offers its verified point when there is a tested plan
      for it; all else leaves it alone. */
  ghost predicate Donates(rep: Report, a: Answers, before: Option<Donation>, after: Option<Donation>) {
    if !rep.tier.Balanced? then after == before
    else
      match rep.fate
      case Errored(_) => after.None?
      case Dropped => after == before
      case Reused(result) =>
        && a.checkpoint.Verified?
        && (after.None? <==> forall t | t in result.probes :: !IsVerifiedProbe(result, t))
        && (after.Some? ==> DonatedBy(result, after.value) && after.value.regime == a.checkpoint.regime
                            && after.value.baseline.None?)
      case Fresh(result) =>
        if EndsVerified(result) then
          && after.Some? && DonatedBy(result, after.value)
          && Some(after.value.regime) == rep.regime && after.value.baseline == rep.baseline
        else after == before
  }

  method NextDonation(rep: Report, a: Answers, donation: Option<Donation>) returns (next: Option<Donation>)
    requires rep.fate.Reused? ==> a.checkpoint.Verified? && rep.fate.result == a.checkpoint.result
    requires rep.fate.Fresh? ==> rep.regime.Some? && rep.baseline.Some?
    ensures Donates(rep, a, donation, next)
  {
    next := donation;
    if rep.tier.Balanced? {
      match rep.fate {
        case Reused(result) =>
          next := DonationFromCheckpoint(result, a.checkpoint.regime);
        case Fresh(result) =>
          var offered := DonationFromScan(result, rep.regime.value, rep.baseline.value);
          if offered.Some? {
            next := offered;
          }
        case Dropped =>
        case Errored(_) =>
          next := None;
      }
    }
  }

  lemma DonatedIsBalanced(rep: Report, a: Answers, donation: Option<Donation>, next: Option<Donation>,
                          reports: seq<Report>)
    requires FromBalanced(reports, donation) && Donates(rep, a, donation, next)
    ensures FromBalanced(reports + [rep], next)
  {
    StillFromBalanced(reports, rep, donation);
    assert (reports + [rep])[|reports|] == rep;
  }

  /** The donation that the tiers so far have left, each of them having adopted, or not, the one it
      found. */
  ghost predicate RunDonates(answers: Tier -> Answers, reports: seq<Report>, donation: Option<Donation>) {
    if reports == [] then donation.None?
    else
      var n := |reports| - 1;
      exists before ::
        && RunDonates(answers, reports[..n], before)
        && AdoptsRightly(reports[n], before)
        && Donates(reports[n], answers(reports[n].tier), before, donation)
  }

  lemma RunDonatesOneMore(answers: Tier -> Answers, reports: seq<Report>, before: Option<Donation>, rep: Report,
                          after: Option<Donation>)
    requires RunDonates(answers, reports, before)
    requires AdoptsRightly(rep, before) && Donates(rep, answers(rep.tier), before, after)
    ensures RunDonates(answers, reports + [rep], after)
  {
    assert (reports + [rep])[..|reports|] == reports;
  }

  /** Over a whole run, Performance meets the donation that Balanced left, and adopts it exactly when
      it may. */
  lemma PerformanceMeetsBalanced(answers: Tier -> Answers, reports: seq<Report>, last: Option<Donation>)
    requires |reports| == |ADAPTIVE_TIER_ORDER| && RunDonates(answers, reports, last)
    requires forall i | 0 <= i < |reports| :: reports[i].tier == ADAPTIVE_TIER_ORDER[i]
    ensures exists donation ::
      Donates(reports[1], answers(Balanced), None, donation) && AdoptsRightly(reports[2], donation)
  {
    var d2 :| RunDonates(answers, reports[..2], d2) && AdoptsRightly(reports[2], d2)
              && Donates(reports[2], answers(reports[2].tier), d2, last);
    assert reports[..2][..1] == reports[..1] && reports[..1][..0] == [];
    var d1 :| RunDonates(answers, reports[..1], d1) && AdoptsRightly(reports[1], d1)
              && Donates(reports[1], answers(reports[1].tier), d1, d2);
    var d0 :| RunDonates(answers, reports[..0], d0) && AdoptsRightly(reports[0], d0)
              && Donates(reports[0], answers(reports[0].tier), d0, d1);
    assert d1.None?;
  }

  /** The variables of the scan: what was learnt so far, the reports and events standing for the
      tiers that were tried. */
  datatype Progress = Progress(reports: seq<Report>, events: seq<Event>, known: seq<UnsafeEntry>,
                               donation: Option<Donation>, primary: Option<ScanResult>, lastError: Option<Error>,
                               discarded: bool)
  {
    ghost predicate Sound(initial: seq<UnsafeEntry>, answers: Tier -> Answers) {
      && |reports| <= |ADAPTIVE_TIER_ORDER|
      && RunDonates(answers, reports, donation)
      && GoodRun(initial, reports)
      && known == initial + Marks(reports)
      && FromBalanced(reports, donation)
      && Tracks(reports, primary, lastError, discarded)
    }
  }

  /** The events and the failures after one more report. */
  lemma HistoryGrows(initial: seq<UnsafeEntry>, p: Progress, rep: Report, started: seq<Event>, closing: seq<Event>)
    requires p.known == initial + Marks(p.reports)
    ensures p.known + rep.marked == initial + Marks(p.reports + [rep])
    ensures p.events == AllEvents(p.reports) && started + closing == ReportEvents(rep) ==>
              p.events + started + closing == AllEvents(p.reports + [rep])
  {
    HistoryOneMore(p.reports, rep);
    Regroup(initial, Marks(p.reports), rep.marked);
    Regroup(p.events, started, closing);
  }

  lemma Regroup<T>(a: seq<T>, b: seq<T>, c: seq<T>)
    ensures a + b + c == a + (b + c)
  {
  }

  /** The variables after a tier was scanned, its donation settled and its fate recorded. */
  method OneTier(base: Base, p: Progress, tier: Tier, a: Answers)
    returns (rep: Report, started: seq<Event>, closing: seq<Event>, next: Progress, stop: bool)
    requires ValidBins(base.bins) && !a.checkpoint.Condemned?
    ensures rep.tier == tier && rep.known == p.known
    ensures AdoptsRightly(rep, p.donation) && Truthful(base, rep, a) && ProbesOpenPoints(rep)
    ensures next.reports == p.reports + [rep] && next.events == p.events + started + closing
    ensures next.known == p.known + rep.marked && Donates(rep, a, p.donation, next.donation)
    ensures next.primary == if p.primary.None? && rep.fate.IsCompleted() then Some(rep.fate.result) else p.primary
    ensures next.lastError == if rep.fate.Errored? then Some(rep.fate.error) else p.lastError
    ensures next.discarded == (p.discarded || rep.fate.Dropped?)
    ensures stop <==> Stops(rep)
    ensures !(stop && p.primary.None?) ==> started + closing == ReportEvents(rep)
  {
    rep, started := ScanTier(base, tier, p.known, p.donation, a);
    TruthfulIsSafe(base, rep, a, p.donation);
    var donation := NextDonation(rep, a, p.donation);
    var primary, lastError, discarded;
    primary, lastError, discarded, closing, stop := Record(rep, p.primary, p.lastError, p.discarded);
    next := Progress(p.reports + [rep], p.events + started + closing, p.known + rep.marked, donation,
                     primary, lastError, discarded);
  }

  /** The reports are the tiers' in order, and tell what happened. */
  ghost predicate AllTruthful(base: Base, answers: Tier -> Answers, reports: seq<Report>) {
    && |reports| <= |ADAPTIVE_TIER_ORDER|
    && forall i | 0 <= i < |reports| ::
         reports[i].tier == ADAPTIVE_TIER_ORDER[i] && Truthful(base, reports[i], answers(reports[i].tier))
  }

  lemma TruthfulOneMore(base: Base, answers: Tier -> Answers, reports: seq<Report>, rep: Report)
    requires AllTruthful(base, answers, reports) && |reports| < |ADAPTIVE_TIER_ORDER|
    requires rep.tier == ADAPTIVE_TIER_ORDER[|reports|] && Truthful(base, rep, answers(rep.tier))
    ensures AllTruthful(base, answers, reports + [rep])
  {
  }

  /** One more report keeps the variables sound. */
  lemma SoundOneMore(initial: seq<UnsafeEntry>, answers: Tier -> Answers, p: Progress, rep: Report, next: Progress)
    requires p.Sound(initial, answers) && NoneStops(p.reports) && |p.reports| < |ADAPTIVE_TIER_ORDER|
    requires rep.tier == ADAPTIVE_TIER_ORDER[|p.reports|] && rep.known == p.known && ProbesOpenPoints(rep)
    requires AdoptsRightly(rep, p.donation) && Donates(rep, answers(rep.tier), p.donation, next.donation)
    requires next.reports == p.reports + [rep] && next.known == initial + Marks(next.reports)
    requires Tracks(next.reports, next.primary, next.lastError, next.discarded)
    ensures next.Sound(initial, answers)
  {
    DonatedIsBalanced(rep, answers(rep.tier), p.donation, next.donation, p.reports);
    RunDonatesOneMore(answers, p.reports, p.donation, rep, next.donation);
    assert GoodNext(initial, p.reports, rep);
    GoodRunOneMore(initial, p.reports, rep);
  }

  /** One trip round the tier loop, for a tier whose checkpoint is not condemned. */
  method TierStep(base: Base, ghost initial: seq<UnsafeEntry>, p: Progress, answers: Tier -> Answers)
    returns (next: Progress, stop: bool, ghost rep: Report)
    requires ValidBins(base.bins)
    requires p.Sound(initial, answers) && NoneStops(p.reports) && |p.reports| < |ADAPTIVE_TIER_ORDER|
    requires !answers(ADAPTIVE_TIER_ORDER[|p.reports|]).checkpoint.Condemned?
    ensures next.Sound(initial, answers)
    ensures rep.tier == ADAPTIVE_TIER_ORDER[|p.reports|] && Truthful(base, rep, answers(rep.tier))
    ensures next.reports == p.reports + [rep] && (stop <==> Stops(rep))
    ensures !stop ==> NoneStops(next.reports)
    ensures p.events == AllEvents(p.reports) && !(stop && p.primary.None?) ==> next.events == AllEvents(next.reports)
    ensures stop ==> next.primary == p.primary && next.lastError == Some(rep.fate.error)
  {
    var tried, started, closing;
    tried, started, closing, next, stop := OneTier(base, p, ADAPTIVE_TIER_ORDER[|p.reports|],
                                                   answers(ADAPTIVE_TIER_ORDER[|p.reports|]));
    rep := tried;
    TracksOneMore(p.reports, rep, p.primary, p.lastError, p.discarded, next.primary, next.lastError, next.discarded);
    HistoryGrows(initial, p, rep, started, closing);
    SoundOneMore(initial, answers, p, rep, next);
  }

  /** The scan comes to a tier whose checkpoint is condemned: no earlier report stopped it. */
  ghost predicate MeetsCondemned(answers: Tier -> Answers, reports: seq<Report>) {
    && |reports| < |ADAPTIVE_TIER_ORDER| && NoneStops(reports)
    && answers(ADAPTIVE_TIER_ORDER[|reports|]).checkpoint.Condemned?
  }

  /** The end of the scan once the tiers are through. */
  method Conclude(p: Progress) returns (end: End)
    requires p.reports != [] && Tracks(p.reports, p.primary, p.lastError, p.discarded)
    ensures EndsWith(end, p.reports) && !end.CheckpointCondemned?
  {
    if p.primary.Some? {
      end := Returned(p.primary.value);
    } else if p.lastError.Some? {
      end := Raised(p.lastError.value);
    } else if p.discarded {
      end := AllDiscarded;
    } else {
      end := NoProfile;
    }
  }

  /** What the reports let the scan end with: the earliest completed tier; without one, an error that
      some tier reported; and "all discarded" when every tier was. */
  ghost predicate EndsWith(end: End, reports: seq<Report>) {
    match end
    case Returned(result) => exists k: nat :: FirstCompletedAt(reports, k) && reports[k].fate.result == result
    case Raised(error) => NoneCompleted(reports) && exists i :: 0 <= i < |reports| && reports[i].fate == Errored(error)
    case AllDiscarded => reports != [] && forall i | 0 <= i < |reports| :: reports[i].fate.Dropped?
    case CheckpointCondemned => true
    case NoProfile => false
  }

  /** `run_adaptive_tier_scans`.  Unless it comes to a condemned checkpoint, it returns exactly when
      some tier completed; it returns the earliest completed tier; and its last error, "no verified
      profile", cannot happen. */
  method RunAdaptiveTierScans(base: Base, initial: seq<UnsafeEntry>, answers: Tier -> Answers)
    returns (end: End, reports: seq<Report>, events: seq<Event>, ghost donation: Option<Donation>)
    requires ValidBins(base.bins)
    ensures GoodRun(initial, reports) && RunDonates(answers, reports, donation)
    ensures AllTruthful(base, answers, reports)
    ensures end.CheckpointCondemned? <==> MeetsCondemned(answers, reports)
    ensures EndsWith(end, reports)
    ensures !MeetsCondemned(answers, reports) ==> RunOver(reports) && (end.Returned? <==> !NoneCompleted(reports))
    ensures end.Returned? ==> events == AllEvents(reports)
  {
    var p := Progress([], [], initial, None, None, None, false);
    var stopped := false;
    while |p.reports| < |ADAPTIVE_TIER_ORDER| && !stopped
      invariant p.Sound(initial, answers)
      invariant p.events == AllEvents(p.reports)
      invariant AllTruthful(base, answers, p.reports)
      invariant if stopped then p.reports != [] && Stops(p.reports[|p.reports| - 1]) && p.primary.Some?
                else NoneStops(p.reports)
      decreases |ADAPTIVE_TIER_ORDER| - |p.reports|
    {
      if answers(ADAPTIVE_TIER_ORDER[|p.reports|]).checkpoint.Condemned? {
        return CheckpointCondemned, p.reports, p.events, p.donation;
      }
      var next, stop;
      ghost var rep;
      next, stop, rep := TierStep(base, initial, p, answers);
      TruthfulOneMore(base, answers, p.reports, rep);
      if stop && p.primary.None? {
        assert next.reports[|p.reports|] == rep;
        return Raised(next.lastError.value), next.reports, next.events, next.donation;
      }
      p, stopped := next, stop;
    }
    reports, events, donation := p.reports, p.events, p.donation;
    end := Conclude(p);
  }

  /** A condemned checkpoint costs the whole scan, tiers that completed before it included: when
      Efficiency is found completed and Balanced condemned, nothing is returned. */
  method CondemnedCheckpointEndsTheScan(base: Base, initial: seq<UnsafeEntry>, answers: Tier -> Answers)
    returns (end: End, reports: seq<Report>)
    requires ValidBins(base.bins)
    requires answers(Efficiency).checkpoint.Verified? && answers(Balanced).checkpoint.Condemned?
    ensures end.CheckpointCondemned? && |reports| == 1 && CompletedAt(reports, 0)
  {
    var events;
    ghost var donation;
    end, reports, events, donation := RunAdaptiveTierScans(base, initial, answers);
    assert ADAPTIVE_TIER_ORDER[0] == Efficiency && ADAPTIVE_TIER_ORDER[1] == Balanced;
  }

  function Occurs(happens: bool): nat {
    if happens then 1 else 0
  }

  ghost predicate EventsOfTier(events: seq<Event>, tier: Tier, fate: Option<Fate>) {
    && multiset(events)[Started(tier)] == Occurs(fate.Some? && !fate.value.Reused?)
    && multiset(events)[TierCompleted(tier)] == Occurs(fate.Some? && fate.value.Fresh?)
    && multiset(events)[Skipped(tier)] == Occurs(fate.Some? && (fate.value.Dropped? || fate.value.Errored?))
  }

  lemma EventsTogether(a: seq<Event>, b: seq<Event>, tier: Tier, f: Option<Fate>, g: Option<Fate>)
    requires EventsOfTier(a, tier, f) && EventsOfTier(b, tier, g) && (f.None? || g.None?)
    ensures EventsOfTier(a + b, tier, if f.Some? then f else g)
  {
    assert multiset(a + b) == multiset(a) + multiset(b);
  }

  lemma ReportEventsOfTier(rep: Report, tier: Tier)
    ensures EventsOfTier(ReportEvents(rep), tier, if rep.tier == tier then Some(rep.fate) else None)
  {
    var closing := if rep.fate.Fresh? then TierCompleted(rep.tier) else Skipped(rep.tier);
    assert rep.fate.Reused? || ReportEvents(rep) == StartEvents(rep) + [closing];
    assert multiset(StartEvents(rep) + [closing]) == multiset(StartEvents(rep)) + multiset{closing};
  }

  function FateAt(reports: seq<Report>, k: nat): Option<Fate> {
    if k < |reports| then Some(reports[k].fate) else None
  }

  lemma TiersAreApart(i: nat, k: nat)
    requires i < |ADAPTIVE_TIER_ORDER| && k < |ADAPTIVE_TIER_ORDER|
    ensures ADAPTIVE_TIER_ORDER[i] == ADAPTIVE_TIER_ORDER[k] <==> i == k
  {
    assert ADAPTIVE_TIER_ORDER == [Efficiency, Balanced, Performance];
  }

  lemma EventsOneMore(reports: seq<Report>, rep: Report, tier: Tier, f: Option<Fate>)
    requires EventsOfTier(AllEvents(reports), tier, f) && (f.None? || rep.tier != tier)
    ensures EventsOfTier(AllEvents(reports + [rep]), tier, if rep.tier == tier then Some(rep.fate) else f)
  {
    HistoryOneMore(reports, rep);
    var g := if rep.tier == tier then Some(rep.fate) else None;
    ReportEventsOfTier(rep, tier);
    EventsTogether(AllEvents(reports), ReportEvents(rep), tier, f, g);
  }

  /** In the events of a run, tier `k` is started once, and then completed or skipped once,
      exactly when it was tried and not found in the checkpoint. */
  lemma {:induction false} EveryStartEndsOnce(reports: seq<Report>, k: nat)
    requires k < |ADAPTIVE_TIER_ORDER| && |reports| <= |ADAPTIVE_TIER_ORDER|
    requires forall i | 0 <= i < |reports| :: reports[i].tier == ADAPTIVE_TIER_ORDER[i]
    ensures EventsOfTier(AllEvents(reports), ADAPTIVE_TIER_ORDER[k], FateAt(reports, k))
    decreases |reports|
  {
    if reports == [] {
      assert AllEvents(reports) == [] && FateAt(reports, k).None?;
    } else {
      var n := |reports| - 1;
      var before, rep, tier := reports[..n], reports[n], ADAPTIVE_TIER_ORDER[k];
      EveryStartEndsOnce(before, k);
      TiersAreApart(n, k);
      assert rep.tier == tier <==> n == k;
      EventsOneMore(before, rep, tier, FateAt(before, k));
      assert before + [rep] == reports;
      assert FateAt(reports, k) == if rep.tier == tier then Some(rep.fate) else FateAt(before, k);
    }
  }

  ghost predicate Reuses(rep: Report, tier: Tier) {
    rep.tier == tier && !rep.fate.Reused? && rep.adopted.Some?
  }

  lemma ReportTellsReuse(rep: Report, tier: Tier)
    ensures DescentReused(tier) in ReportEvents(rep) <==> Reuses(rep, tier)
  {
    assert DescentReused(tier) in StartEvents(rep) <==> rep.tier == tier && rep.adopted.Some?;
  }

  ghost predicate SomeReuses(reports: seq<Report>, tier: Tier) {
    exists i :: 0 <= i < |reports| && Reuses(reports[i], tier)
  }

  lemma SomeReusesOneMore(reports: seq<Report>, rep: Report, tier: Tier)
    ensures SomeReuses(reports + [rep], tier) <==> SomeReuses(reports, tier) || Reuses(rep, tier)
  {
    var more := reports + [rep];
    if i :| 0 <= i < |reports| && Reuses(reports[i], tier) {
      assert Reuses(more[i], tier);
    }
    if Reuses(rep, tier) {
      assert Reuses(more[|reports|], tier);
    }
  }

  /** A reused descent is told of exactly for a tier that was tried afresh and adopted one. */
  lemma {:induction false} ReuseIsTold(reports: seq<Report>, tier: Tier)
    ensures DescentReused(tier) in AllEvents(reports) <==> SomeReuses(reports, tier)
    decreases |reports|
  {
    if reports != [] {
      var before, rep := reports[..|reports| - 1], reports[|reports| - 1];
      ReuseIsTold(before, tier);
      ReportTellsReuse(rep, tier);
      HistoryOneMore(before, rep);
      SomeReusesOneMore(before, rep, tier);
      assert before + [rep] == reports;
    }
  }

  /** Across the whole run, no descent probes a point that is closed by what was known at the
      start or by any tier before it. */
  lemma NoTierProbesCondemnedPoints(initial: seq<UnsafeEntry>, reports: seq<Report>, i: nat, j: nat, e: UnsafeEntry,
                                    p: Probe)
    requires GoodRun(initial, reports) && i <= j < |reports|
    requires e in initial || (i < j && e in reports[i].marked)
    requires p in reports[j].probes
    ensures !e.Blocks(reports[j].tier, p.candidate.voltage, p.candidate.target)
  {
    EveryReportIsGood(initial, reports, j);
    if e !in initial {
      MarksContain(reports[..j], i, e);
    }
    var known := reports[j].known;
    assert e in known;
    var k :| 0 <= k < |known| && known[k] == e;
    var m :| 0 <= m < |reports[j].probes| && reports[j].probes[m] == p;
    assert !Blocked(known, reports[j].tier, reports[j].probes[m].candidate.voltage,
                    reports[j].probes[m].candidate.target);
  }

  /** A tier whose last probe failed for its voltage has marked it; and its voltage is one of the bins. */
  lemma FailureIsMarked(base: Base, rep: Report, a: Answers, donation: Option<Donation>)
    requires ValidBins(base.bins) && Truthful(base, rep, a) && AdoptsRightly(rep, donation) && a.genuine
    requires rep.probes != [] && !rep.probes[|rep.probes| - 1].outcome.passed
    ensures var last := rep.probes[|rep.probes| - 1].candidate;
      rep.marked == [MarkFor(last)] && last.voltage > 0
  {
    var end :| DescentEnds(base, rep.tier, a.baseline.value, rep.known, a, end, rep.probes, rep.marked);
    var b, scan := a.baseline.value, TierScan(base, rep.tier, a.baseline.value, rep.known);
    var all, limits, r :| IsDescent(scan, b.candidate, b.outcome, a.prober, limits, all, r)
                          && CutOff(a, all, r, end, rep.probes, rep.marked);
    var n := |rep.probes| - 1;
    assert rep.probes[n] == all[n] && ProbedWell(scan, b.candidate, limits, all, n);
  }

  /** Over a whole run, once a probe failed for its voltage no later tier probes that voltage at that clock,
      nor a lower voltage, nor a higher clock. */
  lemma FailedPointStaysClosed(base: Base, initial: seq<UnsafeEntry>, answers: Tier -> Answers, reports: seq<Report>,
                               i: nat, j: nat, failed: Probe, p: Probe)
    requires ValidBins(base.bins) && GoodRun(initial, reports) && AllTruthful(base, answers, reports)
    requires i < j < |reports| && answers(reports[i].tier).genuine
    requires failed in reports[i].probes && !failed.outcome.passed && p in reports[j].probes
    ensures p.candidate.voltage > failed.candidate.voltage || p.candidate.target < failed.candidate.target
  {
    EveryReportIsGood(initial, reports, i);
    var donation :| AdoptsRightly(reports[i], donation) && FromBalanced(reports[..i], donation);
    OnlyTheLastFails(base, reports[i], answers(reports[i].tier), donation, failed);
    FailureIsMarked(base, reports[i], answers(reports[i].tier), donation);
    NoTierProbesCondemnedPoints(initial, reports, i, j, MarkFor(failed.candidate), p);
    MarkCloses(failed.candidate, reports[j].tier, p.candidate.voltage, p.candidate.target);
  }

  lemma OnlyTheLastFails(base: Base, rep: Report, a: Answers, donation: Option<Donation>, p: Probe)
    requires Truthful(base, rep, a) && AdoptsRightly(rep, donation) && p in rep.probes && !p.outcome.passed
    ensures p == rep.probes[|rep.probes| - 1]
  {
    var end :| DescentEnds(base, rep.tier, a.baseline.value, rep.known, a, end, rep.probes, rep.marked);
    var b, scan := a.baseline.value, TierScan(base, rep.tier, a.baseline.value, rep.known);
    var all, limits, r :| IsDescent(scan, b.candidate, b.outcome, a.prober, limits, all, r)
                          && CutOff(a, all, r, end, rep.probes, rep.marked);
    var k :| 0 <= k < |rep.probes| && rep.probes[k] == p;
    assert rep.probes[k] == all[k];
  }

  lemma {:induction false} MarksContain(reports: seq<Report>, i: nat, e: UnsafeEntry)
    requires i < |reports| && e in reports[i].marked
    ensures e in Marks(reports)
    decreases |reports|
  {
    if i < |reports| - 1 {
      MarksContain(reports[..|reports| - 1], i, e);
    }
  }
}

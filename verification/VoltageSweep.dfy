/** The voltage descent all presets share (auto_uv/base_uv_loop.py): probe one lower-voltage
    curve after the other, keep the passing ones, and choose the one that goes to verification. */
module VoltageSweep {
  import opened VoltageSearch
  import opened Wrappers

  // ---------------------------------------------------------------------------
  // Data
  // ---------------------------------------------------------------------------

  /** A V/F curve to probe: its lock voltage and requested clock. */
  datatype Candidate = Candidate(voltage: int, target: int)

  /** A probe's measurements, as far as the descent looks at them. */
  datatype Summary = Summary(id: nat, clock: Option<real>)

  datatype Outcome = Outcome(passed: bool, critical: bool, measuredVoltage: Option<real>, summary: Option<Summary>)

  /** How two measurements compare after temperature normalisation. */
  datatype Comparison = Comparison(improved: Option<bool>, voltageClose: bool, morePowerNoGain: bool,
                                   deltaPct: Option<real>)

  datatype Settings = Settings(mode: Tier, startVoltage: int, minSearch: Option<int>, reference: Option<real>,
                               minDropPct: real, stopStreak: nat)

  /** What the descent is given: the curve's bins, the failures on record, the extra margin
      above recorded freezes, and how measurements compare. */
  datatype Scan = Scan(bins: seq<int>, settings: Settings, entries: seq<UnsafeEntry>,
                       closeToEdge: (seq<UnsafeEntry>, int, int) -> bool,
                       compare: (Summary, Summary) -> Comparison)
  {
    predicate Closed(c: Candidate) {
      || Blocked(entries, settings.mode, c.voltage, c.target)
      || closeToEdge(entries, c.voltage, c.target)
    }
  }

  datatype State = State(stableVoltage: int, stableTarget: int, next: Option<int>)

  datatype Selection = Selection(candidate: Candidate, outcome: Option<Outcome>, noGainStreak: nat, pending: bool)

  datatype Probe = Probe(candidate: Candidate, outcome: Outcome)

  /** Why a descent ends: there is no bin to step to, the next point is closed, the last probe
      failed, or Balanced found that lower voltages gain nothing more. */
  datatype Stop = NoBinLeft | NextIsClosed | ProbeFailed | WallReached

  /** `raised` is the critical failure; `excluded` is the pass floor caution sets aside. */
  datatype Result = Result(raised: bool, stop: Stop, stable: Candidate, outcome: Option<Outcome>,
                           state: State, excluded: Option<Candidate>)

  // ---------------------------------------------------------------------------
  // Judging a pass
  // ---------------------------------------------------------------------------

  datatype StopDecision = StopDecision(stop: bool, useCurrent: bool)

  /** `decide_efficiency_stop`, for a candidate that did not gain. */
  function DecideStop(s: Settings, c: Candidate, streak: nat, pending: bool, cmp: Comparison): StopDecision {
    if DropPct(s.startVoltage, c.voltage) < s.minDropPct then StopDecision(false, false)
    else if !pending then StopDecision(false, false)
    else if streak <= s.stopStreak then StopDecision(false, false)
    else StopDecision(true, !cmp.morePowerNoGain && cmp.deltaPct.Some? && cmp.deltaPct.value >= 0.0)
  }

  function DropPct(start: int, v: int): real {
    if start <= 0 then 0.0
    else (if start >= v then (start - v) as real else 0.0) / start as real * 100.0
  }

  /** The voltage came down by `pct` percent of the start voltage. */
  ghost predicate CameDown(start: int, v: int, pct: real) {
    if start <= 0 || v >= start then pct <= 0.0 else 100.0 * (start - v) as real >= pct * start as real
  }

  lemma DropIsPercentage(start: int, v: int, pct: real)
    ensures DropPct(start, v) >= pct <==> CameDown(start, v, pct)
  {
    if 0 < start && v < start {
      var x, y := (start - v) as real, start as real;
      var over := DropPct(start, v) - pct;
      assert (x / y) * y == x;
      assert over * y == 100.0 * x - pct * y;
      SignOfProduct(over, y);
    }
  }

  datatype Decision = Decision(selection: Selection, verified: bool, stop: bool)

  /** Balanced judged the pass `now` no better than the selection `than`. */
  ghost predicate NotImproved(scan: Scan, than: Option<Outcome>, now: Outcome) {
    && scan.settings.mode.Balanced?
    && than.Some? && than.value.summary.Some? && now.summary.Some?
    && var cmp := scan.compare(than.value.summary.value, now.summary.value);
       cmp.improved == Some(false) && cmp.voltageClose
  }

  /** `decide_passed_probe`: either the new candidate is selected, or it was judged not improved
      and the selection stays. */
  function DecidePassedProbe(scan: Scan, selection: Selection, c: Candidate, outcome: Outcome): (d: Decision)
    ensures if d.verified then d.selection.candidate == c && d.selection.outcome == Some(outcome)
            else d.selection.candidate == selection.candidate && d.selection.outcome == selection.outcome
                 && NotImproved(scan, selection.outcome, outcome)
    ensures d.verified <==>
      || !NotImproved(scan, selection.outcome, outcome)
      || (d.stop && var cmp := scan.compare(selection.outcome.value.summary.value, outcome.summary.value);
          !cmp.morePowerNoGain && cmp.deltaPct.Some? && cmp.deltaPct.value >= 0.0)
    ensures d.stop <==>
      && NotImproved(scan, selection.outcome, outcome)
      && selection.pending && selection.noGainStreak + 1 > scan.settings.stopStreak
      && DropPct(scan.settings.startVoltage, c.voltage) >= scan.settings.minDropPct
  {
    var accept := Decision(Selection(c, Some(outcome), 0, false), true, false);
    if !scan.settings.mode.Balanced? then accept
    else if selection.outcome.None? || selection.outcome.value.summary.None? || outcome.summary.None? then accept
    else
      var cmp := scan.compare(selection.outcome.value.summary.value, outcome.summary.value);
      if cmp.improved != Some(false) || !cmp.voltageClose then accept
      else
        var streak := selection.noGainStreak + 1;
        var decision := DecideStop(scan.settings, c, streak, selection.pending, cmp);
        if decision.stop && decision.useCurrent then Decision(Selection(c, Some(outcome), streak, false), true, true)
        else Decision(Selection(selection.candidate, selection.outcome, streak, true), false, decision.stop)
  }

  function SelectedState(state: State, c: Candidate): State {
    State(c.voltage, c.target, None)
  }

  function HigherMinSearch(configured: Option<int>, unsafe: Option<int>): Option<int> {
    if configured.None? then unsafe
    else if unsafe.None? then configured
    else Some(if configured.value >= unsafe.value then configured.value else unsafe.value)
  }

  // ---------------------------------------------------------------------------
  // What a descent promises
  // ---------------------------------------------------------------------------

  /** The voltage closed at every clock, and the lowest voltage the descent may reach. */
  datatype Limits = Limits(floor: Option<int>, minimum: Option<int>)

  /** The minimum is the higher of the two, or the one there is. */
  ghost predicate IsHigher(minimum: Option<int>, a: Option<int>, b: Option<int>) {
    && (minimum == a || minimum == b)
    && (a.Some? ==> minimum.Some? && minimum.value >= a.value)
    && (b.Some? ==> minimum.Some? && minimum.value >= b.value)
  }

  /** The limits come from the failures on record and the configured minimum. */
  ghost predicate IsLimits(scan: Scan, limits: Limits) {
    var s := scan.settings;
    && IsClosedFloor(s.startVoltage, scan.entries, s.mode, limits.floor)
    && exists unsafe ::
      IsNextAbove(scan.bins, limits.floor, unsafe) && IsHigher(limits.minimum, s.minSearch, unsafe)
  }

  /** The point the descent stands at. */
  function Latest(initial: Candidate, probes: seq<Probe>): Candidate {
    if probes == [] then initial else probes[|probes| - 1].candidate
  }

  /** The floor is asked for on the first step only. */
  function FloorFor(limits: Limits, probes: seq<Probe>): Option<int> {
    if probes == [] then limits.floor else None
  }

  /** Voltage `v` is one step further down. */
  ghost predicate IsStep(scan: Scan, initial: Candidate, limits: Limits, probes: seq<Probe>, v: int) {
    StepsDown(scan.bins, scan.settings.startVoltage, Latest(initial, probes).voltage, limits.minimum,
              FloorFor(limits, probes), v)
  }

  ghost predicate NoStep(scan: Scan, initial: Candidate, limits: Limits, probes: seq<Probe>) {
    NoneAllowed(scan.bins, Latest(initial, probes).voltage, limits.minimum, FloorFor(limits, probes))
  }

  /** Probe `i` was one step further down, at the requested clock, at an open point. */
  ghost predicate ProbedWell(scan: Scan, initial: Candidate, limits: Limits, probes: seq<Probe>, i: nat)
    requires i < |probes|
  {
    && probes[i].candidate.target == initial.target
    && IsStep(scan, initial, limits, probes[..i], probes[i].candidate.voltage)
    && !scan.Closed(probes[i].candidate)
  }

  /** No probe is above or below what the descent may use; and when it runs out of bins, none is left below
      the point it came to: each is under the minimum or, before the first probe, not above the floor. */
  ghost predicate KeepsRange(scan: Scan, initial: Candidate, limits: Limits, probes: seq<Probe>, stop: Stop) {
    && (forall i | 0 <= i < |probes| ::
          && initial.voltage > probes[i].candidate.voltage && probes[i].candidate.voltage in scan.bins
          && probes[i].candidate.target == initial.target
          && (limits.minimum.Some? ==> probes[i].candidate.voltage >= limits.minimum.value))
    && (limits.floor.Some? && probes != [] ==> probes[0].candidate.voltage > limits.floor.value)
    && (stop.NoBinLeft? ==>
          var low := if probes == [] then initial.voltage else probes[|probes| - 1].candidate.voltage;
          forall b | b in scan.bins && b < low ::
            || (limits.minimum.Some? && b < limits.minimum.value)
            || (probes == [] && limits.floor.Some? && b <= limits.floor.value))
  }

  lemma DescentKeepsRange(scan: Scan, initial: Candidate, outcome: Option<Outcome>, limits: Limits,
                          probes: seq<Probe>, stop: Stop)
    requires Descends(scan, initial, limits, probes)
    requires Justified(scan, initial, outcome, limits, probes, stop)
    ensures KeepsRange(scan, initial, limits, probes, stop)
  {
    forall i | 0 <= i < |probes|
      ensures initial.voltage > probes[i].candidate.voltage && ProbedWell(scan, initial, limits, probes, i)
    {
      FirstIsLower(scan, initial, limits, probes, i);
    }
    if probes != [] {
      assert ProbedWell(scan, initial, limits, probes, 0) && probes[..0] == [];
    }
  }

  /** No probe is at or below a voltage, at or above the clock, that a failure on record names; nor inside
      the margin. */
  ghost predicate AvoidsRecorded(scan: Scan, probes: seq<Probe>) {
    && (forall p | p in probes :: !scan.closeToEdge(scan.entries, p.candidate.voltage, p.candidate.target))
    && forall e, v, clock, p | e in scan.entries && HoldsFor(e, scan.settings.mode) && Records(e, v, clock) &&
      p in probes ::
      p.candidate.voltage > v || p.candidate.target < clock
  }

  lemma DescentAvoidsRecorded(scan: Scan, initial: Candidate, limits: Limits, probes: seq<Probe>)
    requires Descends(scan, initial, limits, probes)
    ensures AvoidsRecorded(scan, probes)
  {
    forall p | p in probes ensures !scan.closeToEdge(scan.entries, p.candidate.voltage, p.candidate.target) {
      var i :| 0 <= i < |probes| && probes[i] == p;
      assert ProbedWell(scan, initial, limits, probes, i);
    }
    forall e, v, clock, p | e in scan.entries && HoldsFor(e, scan.settings.mode) && Records(e, v, clock) && p in probes
      ensures p.candidate.voltage > v || p.candidate.target < clock
    {
      var i :| 0 <= i < |probes| && probes[i] == p;
      assert ProbedWell(scan, initial, limits, probes, i);
      var k :| 0 <= k < |scan.entries| && scan.entries[k] == e;
      EntryCloses(scan.entries[k], scan.settings.mode, p.candidate.voltage, p.candidate.target);
    }
  }

  ghost predicate AllPassed(probes: seq<Probe>) {
    forall i | 0 <= i < |probes| :: probes[i].outcome.passed
  }

  /** Every probe was a step, and only the last one may have failed. */
  ghost predicate Descends(scan: Scan, initial: Candidate, limits: Limits, probes: seq<Probe>) {
    && (forall i | 0 <= i < |probes| :: ProbedWell(scan, initial, limits, probes, i))
    && (forall i | 0 <= i < |probes| - 1 :: probes[i].outcome.passed)
  }

  /** The voltages of a descent strictly decrease. */
  lemma {:induction false} VoltagesDecrease(scan: Scan, initial: Candidate, limits: Limits, probes: seq<Probe>,
                                            i: nat, j: nat)
    requires Descends(scan, initial, limits, probes) && i < j < |probes|
    ensures initial.voltage > probes[i].candidate.voltage > probes[j].candidate.voltage
    decreases j
  {
    assert ProbedWell(scan, initial, limits, probes, j);
    assert Latest(initial, probes[..j]) == probes[j - 1].candidate;
    if i < j - 1 {
      VoltagesDecrease(scan, initial, limits, probes, i, j - 1);
    } else {
      FirstIsLower(scan, initial, limits, probes, i);
    }
  }

  lemma {:induction false} FirstIsLower(scan: Scan, initial: Candidate, limits: Limits, probes: seq<Probe>, i: nat)
    requires Descends(scan, initial, limits, probes) && i < |probes|
    ensures initial.voltage > probes[i].candidate.voltage
  {
    assert ProbedWell(scan, initial, limits, probes, i);
    if i > 0 {
      FirstIsLower(scan, initial, limits, probes, i - 1);
      assert Latest(initial, probes[..i]) == probes[i - 1].candidate;
    }
  }

  /** The selection that judging the passes one after the other comes to. */
  function SelectionAfter(scan: Scan, initial: Candidate, outcome: Option<Outcome>, probes: seq<Probe>): Selection {
    if probes == [] then Selection(initial, outcome, 0, false)
    else
      var before, p := SelectionAfter(scan, initial, outcome, probes[..|probes| - 1]), probes[|probes| - 1];
      if p.outcome.passed then DecidePassedProbe(scan, before, p.candidate, p.outcome).selection else before
  }

  /** The last pass made Balanced stop. */
  predicate WallAt(scan: Scan, initial: Candidate, outcome: Option<Outcome>, probes: seq<Probe>) {
    && probes != [] && probes[|probes| - 1].outcome.passed
    && var before, p := SelectionAfter(scan, initial, outcome, probes[..|probes| - 1]), probes[|probes| - 1];
       DecidePassedProbe(scan, before, p.candidate, p.outcome).stop
  }

  ghost predicate NoWallBefore(scan: Scan, initial: Candidate, outcome: Option<Outcome>, probes: seq<Probe>) {
    forall i | 0 <= i < |probes| :: !WallAt(scan, initial, outcome, probes[..i])
  }

  /** The reason holds: the descent could not have gone on. */
  ghost predicate Justified(scan: Scan, initial: Candidate, outcome: Option<Outcome>, limits: Limits,
                            probes: seq<Probe>, stop: Stop)
  {
    match stop
    case ProbeFailed => probes != [] && !probes[|probes| - 1].outcome.passed
    case WallReached => AllPassed(probes) && WallAt(scan, initial, outcome, probes)
    case NextIsClosed =>
      && AllPassed(probes) && !WallAt(scan, initial, outcome, probes)
      && exists v :: IsStep(scan, initial, limits, probes, v) && scan.Closed(Candidate(v, initial.target))
    case NoBinLeft =>
      && AllPassed(probes) && !WallAt(scan, initial, outcome, probes)
      && NoStep(scan, initial, limits, probes)
  }

  /** Floor caution: the descent ran out of bins above its minimum with every probe passing, and the
      deepest pass was selected although there is another one above it. */
  predicate FloorCaution(scan: Scan, initial: Candidate, outcome: Option<Outcome>, limits: Limits,
                         probes: seq<Probe>, stop: Stop)
  {
    && stop.NoBinLeft? && limits.minimum.Some? && |probes| >= 2
    && SelectionAfter(scan, initial, outcome, probes).candidate == probes[|probes| - 1].candidate
  }

  /** What a finished descent hands on: the selection, or in floor caution the pass one step above
      the floor. */
  ghost predicate Chosen(scan: Scan, initial: Candidate, outcome: Option<Outcome>, limits: Limits,
                         probes: seq<Probe>, r: Result)
  {
    && (r.excluded.Some? <==> FloorCaution(scan, initial, outcome, limits, probes, r.stop))
    && (if r.excluded.Some? then
          && r.excluded.value == probes[|probes| - 1].candidate
          && r.stable == probes[|probes| - 2].candidate && r.outcome == Some(probes[|probes| - 2].outcome)
        else
          var selection := SelectionAfter(scan, initial, outcome, probes);
          r.stable == selection.candidate && r.outcome == selection.outcome)
    && r.state.stableVoltage == r.stable.voltage && r.state.stableTarget == r.stable.target
  }

  // ---------------------------------------------------------------------------
  // What the selection means
  // ---------------------------------------------------------------------------

  /** Position `at` of the probes (-1: the initial candidate) is what was selected. */
  ghost predicate SelectedAt(initial: Candidate, initialOutcome: Option<Outcome>, probes: seq<Probe>, at: int,
                             c: Candidate, outcome: Option<Outcome>)
  {
    && -1 <= at < |probes|
    && if at == -1 then c == initial && outcome == initialOutcome
       else probes[at].outcome.passed && c == probes[at].candidate && outcome == Some(probes[at].outcome)
  }

  /** Every pass after the selected one was judged not improved against it. */
  ghost predicate LaterNotImproved(scan: Scan, probes: seq<Probe>, at: int, outcome: Option<Outcome>) {
    forall j | at < j < |probes| && 0 <= j && probes[j].outcome.passed :: NotImproved(scan, outcome, probes[j].outcome)
  }

  /** The selection is the initial candidate or a pass, and nothing later improved on it. */
  lemma {:induction false} SelectionIsBest(scan: Scan, initial: Candidate, initialOutcome: Option<Outcome>,
                                           probes: seq<Probe>)
    returns (at: int)
    ensures var selection := SelectionAfter(scan, initial, initialOutcome, probes);
      && SelectedAt(initial, initialOutcome, probes, at, selection.candidate, selection.outcome)
      && LaterNotImproved(scan, probes, at, selection.outcome)
    decreases |probes|
  {
    if probes == [] {
      return -1;
    }
    var n := |probes| - 1;
    var before := SelectionAfter(scan, initial, initialOutcome, probes[..n]);
    at := SelectionIsBest(scan, initial, initialOutcome, probes[..n]);
    assert forall j | 0 <= j < n :: probes[..n][j] == probes[j];
    if probes[n].outcome.passed && DecidePassedProbe(scan, before, probes[n].candidate, probes[n].outcome).verified {
      at := n;
    }
  }

  // ---------------------------------------------------------------------------
  // What the Balanced wall is
  // ---------------------------------------------------------------------------

  /** How many passes in a row have to be without a gain: one more than the configured streak, and two at
      least. */
  function PassesToWall(scan: Scan): (n: nat)
    ensures n >= 2
  {
    if scan.settings.stopStreak < 1 then 2 else scan.settings.stopStreak + 1
  }

  function OutcomeAfter(scan: Scan, initial: Candidate, outcome: Option<Outcome>, probes: seq<Probe>): Option<Outcome> {
    SelectionAfter(scan, initial, outcome, probes).outcome
  }

  /** The probes from `from` on were all judged not improved against what was selected before them. */
  ghost predicate NoGainFrom(scan: Scan, initial: Candidate, outcome: Option<Outcome>, probes: seq<Probe>, from: nat) {
    from <= |probes| &&
    forall i | from <= i < |probes| ::
      NotImproved(scan, OutcomeAfter(scan, initial, outcome, probes[..from]), probes[i].outcome)
  }

  ghost predicate NoWallYet(scan: Scan, initial: Candidate, outcome: Option<Outcome>, probes: seq<Probe>) {
    AllPassed(probes) && NoWallBefore(scan, initial, outcome, probes) && !WallAt(scan, initial, outcome, probes)
  }

  lemma NoWallYetBefore(scan: Scan, initial: Candidate, outcome: Option<Outcome>, probes: seq<Probe>)
    requires probes != [] && AllPassed(probes) && NoWallBefore(scan, initial, outcome, probes)
    ensures NoWallYet(scan, initial, outcome, probes[..|probes| - 1])
  {
    var before := probes[..|probes| - 1];
    assert forall i | 0 <= i <= |before| :: before[..i] == probes[..i];
    assert before[..|before|] == before;
  }

  /** A pass without a gain leaves the selection and lengthens the streak; any other pass ends it. */
  lemma StreakAfter(scan: Scan, initial: Candidate, outcome: Option<Outcome>, probes: seq<Probe>)
    requires probes != [] && AllPassed(probes) && !WallAt(scan, initial, outcome, probes)
    ensures var before, p := SelectionAfter(scan, initial, outcome, probes[..|probes| - 1]), probes[|probes| - 1];
      var after := SelectionAfter(scan, initial, outcome, probes);
      if NotImproved(scan, before.outcome, p.outcome) then
        after == Selection(before.candidate, before.outcome, before.noGainStreak + 1, true)
      else after == Selection(p.candidate, Some(p.outcome), 0, false)
  {
  }

  lemma {:induction false} StreakFits(scan: Scan, initial: Candidate, outcome: Option<Outcome>, probes: seq<Probe>)
    requires NoWallYet(scan, initial, outcome, probes)
    ensures var last := SelectionAfter(scan, initial, outcome, probes);
      last.noGainStreak <= |probes| && (last.pending <==> last.noGainStreak > 0)
    decreases |probes|
  {
    if probes != [] {
      NoWallYetBefore(scan, initial, outcome, probes);
      StreakFits(scan, initial, outcome, probes[..|probes| - 1]);
      StreakAfter(scan, initial, outcome, probes);
    }
  }

  /** The streak counts the passes at the end that were without a gain. */
  lemma {:induction false} StreakIsNoGain(scan: Scan, initial: Candidate, outcome: Option<Outcome>, probes: seq<Probe>,
                                          j: nat)
    requires NoWallYet(scan, initial, outcome, probes)
    requires |probes| - SelectionAfter(scan, initial, outcome, probes).noGainStreak <= j <= |probes|
    ensures var than := OutcomeAfter(scan, initial, outcome, probes);
      && OutcomeAfter(scan, initial, outcome, probes[..j]) == than
      && (j < |probes| ==> NotImproved(scan, than, probes[j].outcome))
    decreases |probes|
  {
    if j == |probes| {
      assert probes[..j] == probes;
    } else {
      var before := probes[..|probes| - 1];
      NoWallYetBefore(scan, initial, outcome, probes);
      StreakAfter(scan, initial, outcome, probes);
      StreakIsNoGain(scan, initial, outcome, before, j);
      assert before[..j] == probes[..j];
    }
  }

  /** And passes without a gain, one after the other, make a streak. */
  lemma {:induction false} NoGainIsStreak(scan: Scan, initial: Candidate, outcome: Option<Outcome>, probes: seq<Probe>,
                                          from: nat)
    requires NoWallYet(scan, initial, outcome, probes) && NoGainFrom(scan, initial, outcome, probes, from)
    ensures var last := SelectionAfter(scan, initial, outcome, probes);
      && last.outcome == OutcomeAfter(scan, initial, outcome, probes[..from])
      && last.noGainStreak >= |probes| - from && (from < |probes| ==> last.pending)
    decreases |probes|
  {
    if from == |probes| {
      assert probes[..from] == probes;
    } else {
      var n := |probes| - 1;
      NoWallYetBefore(scan, initial, outcome, probes);
      assert probes[..n][..from] == probes[..from];
      NoGainIsStreak(scan, initial, outcome, probes[..n], from);
      StreakAfter(scan, initial, outcome, probes);
    }
  }

  /** What decides at the last pass, in terms of the streak before it. */
  lemma WallByStreak(scan: Scan, initial: Candidate, outcome: Option<Outcome>, probes: seq<Probe>)
    requires probes != [] && AllPassed(probes)
    ensures var before, p := SelectionAfter(scan, initial, outcome, probes[..|probes| - 1]), probes[|probes| - 1];
      WallAt(scan, initial, outcome, probes)
      <==> && NotImproved(scan, before.outcome, p.outcome) && before.pending
           && before.noGainStreak + 1 > scan.settings.stopStreak
           && DropPct(scan.settings.startVoltage, p.candidate.voltage) >= scan.settings.minDropPct
  {
  }

  ghost predicate NoGainToWall(scan: Scan, initial: Candidate, outcome: Option<Outcome>, probes: seq<Probe>) {
    |probes| >= PassesToWall(scan) && NoGainFrom(scan, initial, outcome, probes, |probes| - PassesToWall(scan))
  }

  lemma StreakToWall(scan: Scan, initial: Candidate, outcome: Option<Outcome>, probes: seq<Probe>)
    requires probes != [] && AllPassed(probes) && NoWallBefore(scan, initial, outcome, probes)
    requires var before := SelectionAfter(scan, initial, outcome, probes[..|probes| - 1]);
      && NotImproved(scan, before.outcome, probes[|probes| - 1].outcome)
      && before.noGainStreak >= PassesToWall(scan) - 1
    ensures NoGainToWall(scan, initial, outcome, probes)
  {
    NoWallYetBefore(scan, initial, outcome, probes);
    StreakFits(scan, initial, outcome, probes[..|probes| - 1]);
    var from := |probes| - PassesToWall(scan);
    forall i | from <= i < |probes|
      ensures NotImproved(scan, OutcomeAfter(scan, initial, outcome, probes[..from]), probes[i].outcome)
    {
      NoGainAt(scan, initial, outcome, probes, from, i);
    }
  }

  lemma NoGainAt(scan: Scan, initial: Candidate, outcome: Option<Outcome>, probes: seq<Probe>, from: nat, i: nat)
    requires probes != [] && NoWallYet(scan, initial, outcome, probes[..|probes| - 1]) && from <= i < |probes|
    requires var before := SelectionAfter(scan, initial, outcome, probes[..|probes| - 1]);
      && NotImproved(scan, before.outcome, probes[|probes| - 1].outcome)
      && before.noGainStreak >= |probes| - 1 - from
    ensures NotImproved(scan, OutcomeAfter(scan, initial, outcome, probes[..from]), probes[i].outcome)
  {
    var before := probes[..|probes| - 1];
    StreakIsNoGain(scan, initial, outcome, before, from);
    StreakIsNoGain(scan, initial, outcome, before, i);
    assert before[..from] == probes[..from];
  }

  lemma WallToStreak(scan: Scan, initial: Candidate, outcome: Option<Outcome>, probes: seq<Probe>)
    requires AllPassed(probes) && NoWallBefore(scan, initial, outcome, probes)
    requires NoGainToWall(scan, initial, outcome, probes)
    ensures var before := SelectionAfter(scan, initial, outcome, probes[..|probes| - 1]);
      && NotImproved(scan, before.outcome, probes[|probes| - 1].outcome)
      && before.noGainStreak >= PassesToWall(scan) - 1 && before.pending
  {
    var n, from := |probes| - 1, |probes| - PassesToWall(scan);
    var before := probes[..n];
    NoWallYetBefore(scan, initial, outcome, probes);
    assert before[..from] == probes[..from];
    assert forall i | from <= i < n :: before[i] == probes[i];
    NoGainIsStreak(scan, initial, outcome, before, from);
  }

  /** The wall is reached exactly when the voltage has come down far enough and the last passes, as many as
      are asked for, were all judged not improved against what was selected before them. */
  lemma WallIffNoGain(scan: Scan, initial: Candidate, outcome: Option<Outcome>, probes: seq<Probe>)
    requires probes != [] && AllPassed(probes) && NoWallBefore(scan, initial, outcome, probes)
    ensures WallAt(scan, initial, outcome, probes)
      <==> && NoGainToWall(scan, initial, outcome, probes)
           && CameDown(scan.settings.startVoltage, Latest(initial, probes).voltage, scan.settings.minDropPct)
  {
    DropIsPercentage(scan.settings.startVoltage, Latest(initial, probes).voltage, scan.settings.minDropPct);
    NoWallYetBefore(scan, initial, outcome, probes);
    StreakFits(scan, initial, outcome, probes[..|probes| - 1]);
    WallByStreak(scan, initial, outcome, probes);
    if WallAt(scan, initial, outcome, probes) {
      StreakToWall(scan, initial, outcome, probes);
    }
    if NoGainToWall(scan, initial, outcome, probes) {
      WallToStreak(scan, initial, outcome, probes);
    }
  }

  // ---------------------------------------------------------------------------
  // What is handed on
  // ---------------------------------------------------------------------------

  /** The choice a finished descent makes. */
  ghost predicate WellChosen(scan: Scan, initial: Candidate, initialOutcome: Option<Outcome>,
                             limits: Limits, probes: seq<Probe>, r: Result)
  {
    if r.excluded.None? then
      exists at :: SelectedAt(initial, initialOutcome, probes, at, r.stable, r.outcome)
                   && LaterNotImproved(scan, probes, at, r.outcome)
    else
      // floor caution: every probe passed, the last one is set aside for the one before
      && |probes| >= 2 && r.stop.NoBinLeft? && limits.minimum.Some?
      && AllPassed(probes)
      && r.excluded.value == probes[|probes| - 1].candidate
      && SelectedAt(initial, initialOutcome, probes, |probes| - 2, r.stable, r.outcome)
  }

  lemma ChosenIsWellChosen(scan: Scan, initial: Candidate, outcome: Option<Outcome>, limits: Limits,
                           probes: seq<Probe>, r: Result)
    requires Chosen(scan, initial, outcome, limits, probes, r)
    requires Justified(scan, initial, outcome, limits, probes, r.stop)
    ensures WellChosen(scan, initial, outcome, limits, probes, r)
  {
    var at := SelectionIsBest(scan, initial, outcome, probes);
  }

  /** Only Balanced keeps an earlier pass; the other tiers select the deepest one and meet no wall. */
  lemma OthersSelectTheDeepest(scan: Scan, initial: Candidate, outcome: Option<Outcome>, probes: seq<Probe>)
    requires !scan.settings.mode.Balanced? && AllPassed(probes)
    ensures SelectionAfter(scan, initial, outcome, probes).candidate == Latest(initial, probes)
    ensures !WallAt(scan, initial, outcome, probes)
  {
  }

  /** Outside Balanced, floor caution is met exactly when the bins above a minimum ran out after at
      least two probes; what goes on is then the pass before the last. */
  lemma FloorCautionOutsideBalanced(scan: Scan, initial: Candidate, outcome: Option<Outcome>, limits: Limits,
                                    probes: seq<Probe>, r: Result)
    requires !scan.settings.mode.Balanced?
    requires Chosen(scan, initial, outcome, limits, probes, r) &&
      Justified(scan, initial, outcome, limits, probes, r.stop)
    ensures r.excluded.Some? <==> r.stop.NoBinLeft? && limits.minimum.Some? && |probes| >= 2
    ensures r.stop.NoBinLeft? || r.stop.NextIsClosed? ==>
      r.stable == if r.excluded.Some? then probes[|probes| - 2].candidate else Latest(initial, probes)
    ensures !r.stop.WallReached?
  {
    if AllPassed(probes) {
      OthersSelectTheDeepest(scan, initial, outcome, probes);
    }
  }

  // ---------------------------------------------------------------------------
  // The descent
  // ---------------------------------------------------------------------------

  /** The loop's variables.  `passes` is what the source keeps for floor caution. */
  datatype Sweep = Sweep(state: State, latest: Candidate, selection: Selection, probes: seq<Probe>,
                         passes: seq<Probe>, stop: Option<Stop>)

  /** One probe further. */
  lemma DescendsOneMore(scan: Scan, initial: Candidate, outcome: Option<Outcome>, limits: Limits, probes: seq<Probe>,
                        p: Probe)
    requires Descends(scan, initial, limits, probes) && AllPassed(probes)
    requires NoWallBefore(scan, initial, outcome, probes) && !WallAt(scan, initial, outcome, probes)
    requires p.candidate.target == initial.target && !scan.Closed(p.candidate)
    requires IsStep(scan, initial, limits, probes, p.candidate.voltage)
    ensures Descends(scan, initial, limits, probes + [p])
    ensures NoWallBefore(scan, initial, outcome, probes + [p])
    ensures SelectionAfter(scan, initial, outcome, probes + [p])
         == if p.outcome.passed
            then
              var before := SelectionAfter(scan, initial, outcome, probes);
              DecidePassedProbe(scan, before, p.candidate, p.outcome).selection
            else SelectionAfter(scan, initial, outcome, probes)
    ensures p.outcome.passed ==>
      (WallAt(scan, initial, outcome, probes + [p])
       <==> DecidePassedProbe(scan, SelectionAfter(scan, initial, outcome, probes), p.candidate, p.outcome).stop)
  {
    var more := probes + [p];
    assert more[..|probes|] == probes;
    forall i | 0 <= i < |more|
      ensures ProbedWell(scan, initial, limits, more, i) && !WallAt(scan, initial, outcome, more[..i])
    {
      if i < |probes| {
        assert more[..i] == probes[..i];
        assert ProbedWell(scan, initial, limits, probes, i);
      }
    }
  }

  /** Where the descent stands: every probe so far was a step, the selection is what judging them
      comes to; and either it has stopped for a reason, or every probe has passed and the next voltage
      is the step from here. */
  ghost predicate OnTrack(scan: Scan, initial: Candidate, outcome: Option<Outcome>, limits: Limits, sw: Sweep) {
    && sw.state.stableVoltage == sw.latest.voltage && sw.state.stableTarget == sw.latest.target
    && Descends(scan, initial, limits, sw.probes)
    && NoWallBefore(scan, initial, outcome, sw.probes)
    && sw.selection == SelectionAfter(scan, initial, outcome, sw.probes)
    && if sw.stop.Some? then Justified(scan, initial, outcome, limits, sw.probes, sw.stop.value) &&
      !sw.stop.value.NoBinLeft?
       else GoesOn(scan, initial, outcome, limits, sw)
  }

  ghost predicate GoesOn(scan: Scan, initial: Candidate, outcome: Option<Outcome>, limits: Limits, sw: Sweep) {
    && AllPassed(sw.probes) && sw.passes == sw.probes
    && !WallAt(scan, initial, outcome, sw.probes)
    && sw.latest == Latest(initial, sw.probes) && sw.latest.target == initial.target
    && (if sw.state.next.Some? then IsStep(scan, initial, limits, sw.probes, sw.state.next.value)
        else NoStep(scan, initial, limits, sw.probes))
  }

  /** `accept_passing_probe` and what the loop does with its step. */
  method AcceptPassingProbe(scan: Scan, initial: Candidate, ghost outcome: Option<Outcome>,
                            limits: Limits, sw: Sweep, p: Probe)
    returns (sw': Sweep)
    requires ValidBins(scan.bins)
    requires OnTrack(scan, initial, outcome, limits, sw) && sw.stop.None?
    requires IsStep(scan, initial, limits, sw.probes, p.candidate.voltage) && !scan.Closed(p.candidate)
    requires p.outcome.passed && p.candidate.target == initial.target
    ensures sw'.probes == sw.probes + [p]
    ensures OnTrack(scan, initial, outcome, limits, sw')
    ensures sw'.stop.Some? ==> sw'.stop.value.WallReached?
    ensures sw'.state.next.Some? ==> sw'.state.next.value < p.candidate.voltage
  {
    var s := scan.settings;
    var reference := if p.outcome.measuredVoltage.Some? then p.outcome.measuredVoltage else s.reference;
    var lower := SelectNextLowerVoltage(scan.bins, s.startVoltage, p.candidate.voltage, reference, limits.minimum,
                                        None);
    var state := State(p.candidate.voltage, p.candidate.target, lower);
    var decision := DecidePassedProbe(scan, sw.selection, p.candidate, p.outcome);
    DescendsOneMore(scan, initial, outcome, limits, sw.probes, p);
    var latest := p.candidate;
    if decision.stop {
      latest := decision.selection.candidate;
      state := SelectedState(state, latest);
    }
    sw' := Sweep(state, latest, decision.selection, sw.probes + [p], sw.passes + [Probe(latest, p.outcome)],
                 if decision.stop then Some(WallReached) else None);
  }

  ghost predicate Answered(prober: (nat, Candidate) -> Outcome, probes: seq<Probe>) {
    forall i | 0 <= i < |probes| :: probes[i].outcome == prober(i, probes[i].candidate)
  }

  /** A closed point, and a failed probe, end the descent for a reason. */
  lemma ClosedPointStops(scan: Scan, initial: Candidate, outcome: Option<Outcome>, limits: Limits, sw: Sweep)
    requires OnTrack(scan, initial, outcome, limits, sw) && sw.stop.None? && sw.state.next.Some?
    requires scan.Closed(Candidate(sw.state.next.value, sw.state.stableTarget))
    ensures OnTrack(scan, initial, outcome, limits, sw.(stop := Some(NextIsClosed)))
  {
    assert IsStep(scan, initial, limits, sw.probes, sw.state.next.value);
  }

  lemma FailedProbeStops(scan: Scan, initial: Candidate, outcome: Option<Outcome>, limits: Limits, sw: Sweep, p: Probe)
    requires OnTrack(scan, initial, outcome, limits, sw) && sw.stop.None?
    requires IsStep(scan, initial, limits, sw.probes, p.candidate.voltage) && !scan.Closed(p.candidate)
    requires !p.outcome.passed && p.candidate.target == initial.target
    ensures OnTrack(scan, initial, outcome, limits, sw.(probes := sw.probes + [p], stop := Some(ProbeFailed)))
  {
    DescendsOneMore(scan, initial, outcome, limits, sw.probes, p);
  }

  lemma AnsweredOneMore(prober: (nat, Candidate) -> Outcome, probes: seq<Probe>, p: Probe)
    requires Answered(prober, probes) && p.outcome == prober(|probes|, p.candidate)
    ensures Answered(prober, probes + [p])
  {
  }

  /** One round of the loop: build the next candidate, look whether it is closed, probe it. */
  method ProbeNext(scan: Scan, initial: Candidate, ghost outcome: Option<Outcome>, limits: Limits,
                   prober: (nat, Candidate) -> Outcome, sw: Sweep)
    returns (sw': Sweep)
    requires ValidBins(scan.bins)
    requires OnTrack(scan, initial, outcome, limits, sw) && sw.stop.None? && sw.state.next.Some?
    requires Answered(prober, sw.probes)
    ensures OnTrack(scan, initial, outcome, limits, sw') && Answered(prober, sw'.probes)
    ensures sw'.stop.None? && sw'.state.next.Some? ==> sw'.state.next.value < sw.state.next.value
  {
    var candidate := Candidate(sw.state.next.value, sw.state.stableTarget);
    if scan.Closed(candidate) {
      ClosedPointStops(scan, initial, outcome, limits, sw);
      sw' := sw.(stop := Some(NextIsClosed));
      return;
    }
    var p := Probe(candidate, prober(|sw.probes|, candidate));
    AnsweredOneMore(prober, sw.probes, p);
    if p.outcome.passed {
      sw' := AcceptPassingProbe(scan, initial, outcome, limits, sw, p);
    } else {
      FailedProbeStops(scan, initial, outcome, limits, sw, p);
      sw' := sw.(probes := sw.probes + [p], stop := Some(ProbeFailed));
    }
  }

  /** The end of the descent: floor caution, and the state of the selected candidate. */
  method Finish(scan: Scan, initial: Candidate, ghost outcome: Option<Outcome>, limits: Limits, sw: Sweep)
    returns (r: Result)
    requires OnTrack(scan, initial, outcome, limits, sw)
    requires sw.stop.None? ==> sw.state.next.None?
    ensures !r.raised && r.stop == if sw.stop.Some? then sw.stop.value else NoBinLeft
    ensures Justified(scan, initial, outcome, limits, sw.probes, r.stop)
    ensures Chosen(scan, initial, outcome, limits, sw.probes, r)
  {
    var selection, excluded, state := sw.selection, None, sw.state;
    var n := |sw.passes|;
    if sw.stop.None? && limits.minimum.Some? && n >= 2 && selection.candidate == sw.passes[n - 1].candidate {
      selection := Selection(sw.passes[n - 2].candidate, Some(sw.passes[n - 2].outcome), 0, false);
      excluded := Some(sw.passes[n - 1].candidate);
    }
    if selection.candidate != sw.latest {
      state := SelectedState(state, selection.candidate);
    }
    r := Result(false, if sw.stop.Some? then sw.stop.value else NoBinLeft, selection.candidate, selection.outcome,
                state, excluded);
  }

  /** The while loop of `run_base_uv_loop`: it ends for every prober. */
  method Descend(scan: Scan, initial: Candidate, ghost outcome: Option<Outcome>, limits: Limits,
                 prober: (nat, Candidate) -> Outcome, start: Sweep)
    returns (sw: Sweep)
    requires ValidBins(scan.bins)
    requires OnTrack(scan, initial, outcome, limits, start) && start.probes == []
    ensures OnTrack(scan, initial, outcome, limits, sw) && Answered(prober, sw.probes)
    ensures sw.stop.Some? || sw.state.next.None?
  {
    sw := start;
    while sw.state.next.Some? && sw.stop.None?
      invariant OnTrack(scan, initial, outcome, limits, sw) && Answered(prober, sw.probes)
      decreases sw.stop.None?, if sw.state.next.Some? then sw.state.next.value else 0
    {
      ghost var next := sw.state.next.value;
      assert next in scan.bins;
      sw := ProbeNext(scan, initial, outcome, limits, prober, sw);
    }
  }

  /** A whole descent: the limits it kept, the probes it made, why it stopped, and what it chose. */
  ghost predicate IsDescent(scan: Scan, initial: Candidate, outcome: Option<Outcome>,
                            prober: (nat, Candidate) -> Outcome, limits: Limits, probes: seq<Probe>, r: Result)
  {
    && IsLimits(scan, limits)
    && Descends(scan, initial, limits, probes) && Answered(prober, probes)
    && NoWallBefore(scan, initial, outcome, probes)
    && Justified(scan, initial, outcome, limits, probes, r.stop)
    && (r.raised <==> r.stop.ProbeFailed? && probes[|probes| - 1].outcome.critical)
    && (!r.raised ==> Chosen(scan, initial, outcome, limits, probes, r))
  }

  /** How the loop's end becomes a result: the critical failure is raised, everything else finished. */
  method Conclude(scan: Scan, initial: Candidate, ghost outcome: Option<Outcome>, limits: Limits, sw: Sweep)
    returns (r: Result)
    requires OnTrack(scan, initial, outcome, limits, sw)
    requires sw.stop.None? ==> sw.state.next.None?
    ensures r.stop == if sw.stop.Some? then sw.stop.value else NoBinLeft
    ensures Justified(scan, initial, outcome, limits, sw.probes, r.stop)
    ensures r.raised <==> r.stop.ProbeFailed? && sw.probes[|sw.probes| - 1].outcome.critical
    ensures !r.raised ==> Chosen(scan, initial, outcome, limits, sw.probes, r)
    ensures KeepsRange(scan, initial, limits, sw.probes, r.stop)
  {
    if sw.stop == Some(ProbeFailed) && sw.probes[|sw.probes| - 1].outcome.critical {
      r := Result(true, ProbeFailed, sw.selection.candidate, sw.selection.outcome, sw.state, None);
    } else {
      r := Finish(scan, initial, outcome, limits, sw);
    }
    DescentKeepsRange(scan, initial, outcome, limits, sw.probes, r.stop);
  }

  /** `run_base_uv_loop`, with `prober(k, c)` answering the `k`-th probe.  `unsafe` is the
      candidate it marks. */
  method RunBaseUvLoop(scan: Scan, initial: Candidate, initialOutcome: Option<Outcome>,
                       prober: (nat, Candidate) -> Outcome)
    returns (r: Result, probes: seq<Probe>, unsafe: Option<Candidate>, ghost limits: Limits)
    requires ValidBins(scan.bins)
    ensures IsDescent(scan, initial, initialOutcome, prober, limits, probes, r)
    ensures !r.raised ==> WellChosen(scan, initial, initialOutcome, limits, probes, r)
    ensures unsafe == if r.stop.ProbeFailed? then Some(probes[|probes| - 1].candidate) else None
    ensures r.stop.WallReached? ==> NoGainToWall(scan, initial, initialOutcome, probes)
    ensures KeepsRange(scan, initial, limits, probes, r.stop) && AvoidsRecorded(scan, probes)
  {
    var s := scan.settings;
    var floor, unsafeMin := UnsafeMinSearch(scan.bins, s.startVoltage, scan.entries, s.mode);
    var kept := Limits(floor, HigherMinSearch(s.minSearch, unsafeMin));
    limits := kept;
    assert IsLimits(scan, limits);
    var next := SelectNextLowerVoltage(scan.bins, s.startVoltage, initial.voltage, s.reference, kept.minimum, floor);
    var sw := Sweep(State(initial.voltage, initial.target, next), initial,
                    Selection(initial, initialOutcome, 0, false), [], [], None);
    sw := Descend(scan, initial, initialOutcome, kept, prober, sw);
    probes := sw.probes;
    unsafe := if sw.stop == Some(ProbeFailed) then Some(probes[|probes| - 1].candidate) else None;
    r := Conclude(scan, initial, initialOutcome, kept, sw);
    DescentAvoidsRecorded(scan, initial, kept, probes);
    if !r.raised {
      ChosenIsWellChosen(scan, initial, initialOutcome, kept, probes, r);
    }
    if r.stop.WallReached? {
      WallIffNoGain(scan, initial, initialOutcome, probes);
    }
  }
}

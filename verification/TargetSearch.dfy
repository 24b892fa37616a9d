/** The search for a tier's custom clock and voltage targets (auto_uv/auto_oc/target_search.py). */
module TargetSearch {
  import opened VoltageSearch
  import opened VoltageSweep
  import opened Wrappers

  const CLOCK_STEP := 15
  const MAX_DOWN_STEPS := 10

  // ---------------------------------------------------------------------------
  // The clocks on the way down
  // ---------------------------------------------------------------------------

  /** How many clocks are tried between the initial one and the limit. */
  function DownSteps(initial: int, limit: int): (steps: nat)
    ensures 1 <= steps <= MAX_DOWN_STEPS
  {
    var needed := (initial - limit + CLOCK_STEP - 1) / CLOCK_STEP;
    var some := if needed < 1 then 1 else needed;
    if some < MAX_DOWN_STEPS then some else MAX_DOWN_STEPS
  }

  function DownClock(initial: int, limit: int, index: nat, steps: nat): int
    requires steps > 0
  {
    if index == steps then limit
    else
      var even := (initial - (initial - limit) * index / steps) / CLOCK_STEP * CLOCK_STEP;
      if even < limit then limit else even
  }

  lemma QuotientRises(a: int, b: int, d: nat)
    requires a <= b && d > 0
    ensures a / d <= b / d
  {
    var q, r := a / d, b / d;
    assert a == d * q + a % d && b == d * r + b % d;
    LargerByOne(d, q, r);
  }

  lemma LargerByOne(d: nat, q: int, r: int)
    ensures q > r ==> d * q >= d * r + d
  {
    if q > r {
      ProductRises(d, r + 1, q);
    }
  }

  lemma ProductRises(k: int, i: int, j: int)
    requires k >= 0 && i <= j
    ensures k * i <= k * j
  {
  }

  /** As many clocks as it takes to go down by 15 MHz each, but at most ten. */
  lemma DownStepsInNumbers(initial: int, limit: int)
    requires limit < initial
    ensures var steps := DownSteps(initial, limit);
      && 1 <= steps <= 10
      && 15 * (steps - 1) < initial - limit
      && (steps < 10 ==> initial - limit <= 15 * steps)
  {
  }

  /** `x` is the even split of the way down at a step, rounded up. */
  ghost predicate IsEvenSplit(initial: int, limit: int, index: nat, steps: nat, x: int) {
    steps * (initial - x) <= (initial - limit) * index < steps * (initial - x) + steps
  }

  /** `clock` is `x` rounded down to a multiple of 15, but not below the limit. */
  ghost predicate IsRoundedDown(x: int, limit: int, clock: int) {
    && (clock == limit || (clock > limit && clock % 15 == 0 && clock <= x < clock + 15))
    && forall c | limit < c <= x && c % 15 == 0 :: c <= clock
  }

  /** The clock of a step is the even split rounded down. */
  lemma DownClockInNumbers(initial: int, limit: int, index: nat, steps: nat)
    requires limit < initial && index < steps
    ensures exists x ::
      IsEvenSplit(initial, limit, index, steps, x) && IsRoundedDown(x, limit, DownClock(initial, limit, index, steps))
  {
    var part := (initial - limit) * index;
    var q := part / steps;
    assert part == steps * q + part % steps;
    var x := initial - q;
    assert IsEvenSplit(initial, limit, index, steps, x);
    forall c | limit < c <= x && c % 15 == 0 ensures c <= DownClock(initial, limit, index, steps) {
      QuotientRises(c, x, 15);
    }
  }

  /** The clocks never rise, stay between the limit and the initial clock, and end at the limit. */
  lemma DownClocksFall(initial: int, limit: int, i: nat, j: nat, steps: nat)
    requires limit < initial && i <= j <= steps && steps > 0
    ensures limit <= DownClock(initial, limit, j, steps) <= DownClock(initial, limit, i, steps) <= initial
    ensures DownClock(initial, limit, steps, steps) == limit
  {
    var range := initial - limit;
    ProductRises(range, 0, i);
    ProductRises(range, i, j);
    QuotientRises(0, range * i, steps);
    QuotientRises(range * i, range * j, steps);
    var high, low := initial - range * i / steps, initial - range * j / steps;
    QuotientRises(low, high, CLOCK_STEP);
    assert high / CLOCK_STEP * CLOCK_STEP <= high;
  }

  // ---------------------------------------------------------------------------
  // Probes and passed candidates
  // ---------------------------------------------------------------------------

  /** The measurements of a probe; the clock may be missing. */
  datatype Summary = Summary(clock: Option<real>, fpsPerWatt: Option<real>)

  datatype Answer = UserStop | CriticalFailure | Done(passed: bool, summary: Option<Summary>)

  /** A probe: its point, the failures that were known just before, and what came back. */
  datatype Tried = Tried(candidate: Candidate, known: seq<UnsafeEntry>, answer: Answer)

  /** A candidate object that passed, told apart by its number, with its measurements. */
  datatype Entry = Entry(id: nat, candidate: Candidate, summary: Option<Summary>)

  datatype Failure = OutsideCurve | StoppedByUser | CriticalProbe | NothingEligible

  /** The climb between the descent and the end: what it attempted, which of these it selected
      (none for the start), and the measurements it selected that one with. */
  datatype Climb = Climb(attempts: seq<(Candidate, bool, Option<Summary>)>, chosen: Option<nat>,
                         summary: Option<Summary>)
  {
    predicate Valid() {
      chosen.Some? ==> chosen.value < |attempts|
    }
  }

  /** What the world answers: the failures on file at each reading, each probe, and the climb. */
  datatype World = World(unsafe: nat -> seq<UnsafeEntry>, probe: (nat, Candidate) -> Answer, climb: Climb,
                         bestEfficiency: seq<Option<Summary>> -> Option<nat>)

  /** The probe passed and its clock was measured. */
  predicate Succeeds(t: Tried) {
    t.answer.Done? && t.answer.passed && t.answer.summary.Some? && t.answer.summary.value.clock.Some?
  }

  /** The passed candidates of the probes, numbered from 1. */
  function Passes(tried: seq<Tried>): seq<Entry> {
    if tried == [] then []
    else
      var before, t := Passes(tried[..|tried| - 1]), tried[|tried| - 1];
      if Succeeds(t) then before + [Entry(|before| + 1, t.candidate, t.answer.summary)] else before
  }

  /** Probe `k` of the list is where the entry comes from. */
  ghost predicate CameFromProbe(tried: seq<Tried>, e: Entry) {
    exists k :: 0 <= k < |tried| && Succeeds(tried[k]) && tried[k].candidate == e.candidate
                && tried[k].answer.summary == e.summary
  }

  /** The probes that going through the candidates makes: closed points are passed over, by the
      failures on file at that reading. */
  function TriedAfter(w: World, tier: Tier, candidates: seq<Candidate>): seq<Tried> {
    if candidates == [] then []
    else
      var n := |candidates| - 1;
      var before, known, c := TriedAfter(w, tier, candidates[..n]), w.unsafe(n), candidates[n];
      if Blocked(known, tier, c.voltage, c.target) then before else before + [Tried(c, known, w.probe(|before|, c))]
  }

  /** The failure of the whole search that a probe's answer is. */
  function FailureOf(answer: Answer): Option<Failure> {
    match answer
    case UserStop => Some(StoppedByUser)
    case CriticalFailure => Some(CriticalProbe)
    case Done(_, _) => None
  }

  /** No probe but the last one ended the search. */
  ghost predicate EndsAtFailure(tried: seq<Tried>) {
    forall k | 0 <= k < |tried| - 1 :: FailureOf(tried[k].answer).None?
  }

  function LastFailure(tried: seq<Tried>): Option<Failure> {
    if tried == [] then None else FailureOf(tried[|tried| - 1].answer)
  }

  ghost predicate OpenWhenTried(tier: Tier, t: Tried) {
    !Blocked(t.known, tier, t.candidate.voltage, t.candidate.target)
  }

  ghost predicate IsMeasured(summary: Option<Summary>) {
    summary.Some? && summary.value.clock.Some?
  }

  /** A result within both limits, measured, and not closed by a failure on file. */
  predicate Eligible(e: Entry, clockLimit: int, voltageLimit: int, unsafe: seq<UnsafeEntry>, tier: Tier) {
    && e.candidate.target <= clockLimit && e.candidate.voltage <= voltageLimit
    && e.summary.Some? && e.summary.value.clock.Some?
    && !Blocked(unsafe, tier, e.candidate.voltage, e.candidate.target)
  }

  lemma {:induction false} TriedAreOpen(w: World, tier: Tier, candidates: seq<Candidate>)
    ensures forall k | 0 <= k < |TriedAfter(w, tier, candidates)| ::
      OpenWhenTried(tier, TriedAfter(w, tier, candidates)[k]) &&
        TriedAfter(w, tier, candidates)[k].candidate in candidates
    decreases |candidates|
  {
    if candidates != [] {
      TriedAreOpen(w, tier, candidates[..|candidates| - 1]);
    }
  }

  /** Every candidate on the way was either closed when its turn came, or was probed. */
  lemma {:induction false} TriedUnlessClosed(w: World, tier: Tier, candidates: seq<Candidate>, i: nat)
    requires i < |candidates|
    ensures var c, tried := candidates[i], TriedAfter(w, tier, candidates);
      || Blocked(w.unsafe(i), tier, c.voltage, c.target)
      || exists k :: 0 <= k < |tried| && tried[k] == Tried(c, w.unsafe(i), w.probe(k, c))
    decreases |candidates|
  {
    var n, c := |candidates| - 1, candidates[i];
    var before, tried := TriedAfter(w, tier, candidates[..n]), TriedAfter(w, tier, candidates);
    if !Blocked(w.unsafe(i), tier, c.voltage, c.target) {
      if i == n {
        assert tried[|before|] == Tried(c, w.unsafe(i), w.probe(|before|, c));
      } else {
        TriedUnlessClosed(w, tier, candidates[..n], i);
        var k :| 0 <= k < |before| && before[k] == Tried(c, w.unsafe(i), w.probe(k, c));
        assert tried[k] == before[k];
      }
    }
  }

  lemma {:induction false} PassCameFromProbe(tried: seq<Tried>, i: nat)
    requires i < |Passes(tried)|
    ensures Passes(tried)[i].id == i + 1 && CameFromProbe(tried, Passes(tried)[i])
    decreases |tried|
  {
    var n := |tried| - 1;
    var before := Passes(tried[..n]);
    if i < |before| {
      PassCameFromProbe(tried[..n], i);
      var k :| 0 <= k < n && Succeeds(tried[..n][k]) && tried[..n][k].candidate == before[i].candidate
               && tried[..n][k].answer.summary == before[i].summary;
      assert tried[..n][k] == tried[k];
    } else {
      assert Succeeds(tried[n]);
    }
  }

  ghost predicate IsPass(passes: seq<Entry>, t: Tried)
    requires Succeeds(t)
  {
    exists i :: 0 <= i < |passes| && passes[i].candidate == t.candidate && passes[i].summary == t.answer.summary
  }

  lemma {:induction false} SuccessIsPass(tried: seq<Tried>, k: nat)
    requires k < |tried| && Succeeds(tried[k])
    ensures IsPass(Passes(tried), tried[k])
    decreases |tried|
  {
    var n := |tried| - 1;
    var before, passes := Passes(tried[..n]), Passes(tried);
    if k < n {
      SuccessIsPass(tried[..n], k);
      var i :| 0 <= i < |before| && before[i].candidate == tried[k].candidate
               && before[i].summary == tried[k].answer.summary;
      assert passes[i] == before[i];
    } else {
      assert passes[|before|].candidate == tried[k].candidate;
    }
  }

  /** The passed candidates are exactly the measured passes among the probes. */
  lemma PassesAreMeasured(tried: seq<Tried>)
    ensures forall i | 0 <= i < |Passes(tried)| ::
      Passes(tried)[i].id == i + 1 && CameFromProbe(tried, Passes(tried)[i])
    ensures forall k | 0 <= k < |tried| && Succeeds(tried[k]) :: IsPass(Passes(tried), tried[k])
  {
    forall i | 0 <= i < |Passes(tried)|
      ensures Passes(tried)[i].id == i + 1 && CameFromProbe(tried, Passes(tried)[i])
    {
      PassCameFromProbe(tried, i);
    }
    forall k | 0 <= k < |tried| && Succeeds(tried[k]) ensures IsPass(Passes(tried), tried[k]) {
      SuccessIsPass(tried, k);
    }
  }

  lemma PassesOneMore(start: Entry, tried: seq<Tried>, t: Tried)
    ensures var passed := [start] + Passes(tried);
      [start] + Passes(tried + [t])
      == if Succeeds(t) then passed + [Entry(|passed|, t.candidate, t.answer.summary)] else passed
  {
    assert (tried + [t])[..|tried|] == tried;
  }

  lemma TriedOneMore(w: World, tier: Tier, path: seq<Candidate>, n: nat)
    requires n < |path|
    ensures var before, known, c := TriedAfter(w, tier, path[..n]), w.unsafe(n), path[n];
      TriedAfter(w, tier, path[..n + 1])
      == if Blocked(known, tier, c.voltage, c.target) then before else before + [Tried(c, known, w.probe(|before|, c))]
  {
    assert path[..n + 1][..n] == path[..n];
  }

  /** The state the probes of a search share. */
  class Search {
    const tier: Tier
    const start: Entry
    var selected: Entry
    var passed: seq<Entry>
    var tried: seq<Tried>
    var readings: nat

    constructor (tier: Tier, start: Candidate, summary: Option<Summary>)
      ensures this.tier == tier && this.start == Entry(0, start, summary) && Valid()
      ensures tried == [] && readings == 0
    {
      this.tier, this.start := tier, Entry(0, start, summary);
      selected, passed, tried, readings := Entry(0, start, summary), [Entry(0, start, summary)], [], 0;
    }

    /** The passed candidates are the start and the measured passes, and the last one is selected. */
    ghost predicate Valid()
      reads this
    {
      passed == [start] + Passes(tried) && selected == passed[|passed| - 1]
    }

    /** `probe`: nothing for a point that is closed, else what its answer says: a failure of the whole
        search, or whether the candidate passed with a measured clock and is selected now. */
    method Probe(w: World, c: Candidate) returns (failure: Option<Failure>, ok: bool)
      requires Valid()
      modifies this
      ensures Valid() && readings == old(readings) + 1
      ensures var known := w.unsafe(old(readings));
        if Blocked(known, tier, c.voltage, c.target) then tried == old(tried) && failure.None? && !ok
        else
          var t := Tried(c, known, w.probe(|old(tried)|, c));
          && tried == old(tried) + [t] && failure == FailureOf(t.answer)
          && (failure == Some(StoppedByUser) <==> t.answer.UserStop?)
          && (failure == Some(CriticalProbe) <==> t.answer.CriticalFailure?)
          && (ok <==> Succeeds(t))
          && (ok <==> t.answer.Done? && t.answer.passed && t.answer.summary.Some? && t.answer.summary.value.clock.Some?)
      ensures selected.candidate == if ok then c else old(selected).candidate
      ensures !ok ==> selected == old(selected) && passed == old(passed)
    {
      var known := w.unsafe(readings);
      readings := readings + 1;
      if Blocked(known, tier, c.voltage, c.target) {
        return None, false;
      }
      var t := Tried(c, known, w.probe(|tried|, c));
      PassesOneMore(start, tried, t);
      tried := tried + [t];
      match t.answer {
        case UserStop =>
          return Some(StoppedByUser), false;
        case CriticalFailure =>
          return Some(CriticalProbe), false;
        case Done(isPassed, summary) =>
          if !isPassed || summary.None? || summary.value.clock.None? {
            return None, false;
          }
          selected := Entry(|passed|, c, summary);
          passed := passed + [selected];
          return None, true;
      }
    }

    /** The next point of a path. */
    method ProbeNext(w: World, ghost path: seq<Candidate>, n: nat, c: Candidate) returns (failure: Option<Failure>)
      requires Valid() && readings == n < |path| && c == path[n]
      requires tried == TriedAfter(w, tier, path[..n]) && LastFailure(tried).None? && EndsAtFailure(tried)
      modifies this
      ensures Valid() && readings == n + 1 && tried == TriedAfter(w, tier, path[..n + 1])
      ensures failure == LastFailure(tried) && EndsAtFailure(tried)
      ensures selected.candidate == c || selected == old(selected)
    {
      var ok;
      failure, ok := Probe(w, c);
      TriedOneMore(w, tier, path, n);
    }

    /** The way down to a lower clock at the voltage that is proven; a failed clock does not end it.
        `down` is how far it got: all the way, or to the probe that ended the search. */
    method ClockDown(w: World, clockLimit: int) returns (failure: Option<Failure>, ghost down: seq<Candidate>)
      requires Valid() && tried == [] && readings == 0 && clockLimit < start.candidate.target
      modifies this
      ensures Valid() && readings == |down|
      ensures down <= DownPath(start.candidate, clockLimit) && tried == TriedAfter(w, tier, down)
      ensures failure == LastFailure(tried) && EndsAtFailure(tried)
      ensures failure.None? ==> down == DownPath(start.candidate, clockLimit)
      ensures selected.candidate.voltage == start.candidate.voltage
    {
      var initial := selected.candidate.target;
      var steps := DownSteps(initial, clockLimit);
      ghost var path := DownPath(start.candidate, clockLimit);
      down := [];
      for index := 1 to steps + 1
        invariant Valid() && down == path[..index - 1] && readings == index - 1
        invariant tried == TriedAfter(w, tier, down) && LastFailure(tried).None? && EndsAtFailure(tried)
        invariant selected.candidate.voltage == start.candidate.voltage
      {
        var clock := DownClock(initial, clockLimit, index, steps);
        DownPathAt(start.candidate, clockLimit, index - 1);
        failure := ProbeNext(w, path, index - 1, Candidate(selected.candidate.voltage, clock));
        down := path[..index];
        if failure.Some? {
          return;
        }
      }
      assert path[..|path|] == path;
      failure := None;
    }
  }

  lemma DownPathAt(start: Candidate, clockLimit: int, i: nat)
    requires clockLimit < start.target && i < DownSteps(start.target, clockLimit)
    ensures |DownPath(start, clockLimit)| == DownSteps(start.target, clockLimit)
    ensures DownPath(start, clockLimit)[i]
         == Candidate(start.voltage, DownClock(start.target, clockLimit, i + 1, DownSteps(start.target, clockLimit)))
  {
  }

  /** The points of the way down. */
  function DownPath(start: Candidate, clockLimit: int): seq<Candidate> {
    if clockLimit >= start.target then []
    else
      var steps := DownSteps(start.target, clockLimit);
      seq(steps, i requires 0 <= i < steps =>
        Candidate(start.voltage, DownClock(start.target, clockLimit, i + 1, steps)))
  }

  /** The way down stays at the start's voltage, its clocks never rise, and it ends at the limit. */
  lemma DownPathFalls(start: Candidate, clockLimit: int)
    ensures var path := DownPath(start, clockLimit);
      && |path| <= 10
      && (path != [] ==> 15 * (|path| - 1) < start.target - clockLimit)
      && (path != [] && |path| < 10 ==> start.target - clockLimit <= 15 * |path|)
      && (forall i | 0 <= i < |path| ::
        path[i].voltage == start.voltage && clockLimit <= path[i].target <= start.target)
      && (forall i, j | 0 <= i < j < |path| :: path[j].target <= path[i].target)
      && (path != [] <==> clockLimit < start.target)
      && (path != [] ==> path[|path| - 1].target == clockLimit)
  {
    var path := DownPath(start, clockLimit);
    if clockLimit < start.target {
      DownStepsInNumbers(start.target, clockLimit);
    }
    forall i, j | 0 <= i <= j < |path|
      ensures clockLimit <= path[j].target <= path[i].target <= start.target
    {
      DownClocksFall(start.target, clockLimit, i + 1, j + 1, |path|);
    }
  }

  // ---------------------------------------------------------------------------
  // The search
  // ---------------------------------------------------------------------------

  datatype End = Failed(failure: Failure) | Found(candidate: Candidate, summary: Option<Summary>)

  /** Entries with one number are one candidate. */
  ghost predicate ByNumber(all: seq<Entry>) {
    forall e, f | e in all && f in all && e.id == f.id :: e.candidate == f.candidate
  }

  /** The measured passes among the attempts of the climb, numbered from `first`. */
  function ClimbPasses(attempts: seq<(Candidate, bool, Option<Summary>)>, first: nat): seq<Entry> {
    if attempts == [] then []
    else
      var n := |attempts| - 1;
      var a := attempts[n];
      ClimbPasses(attempts[..n], first) + if a.1 && a.2.Some? then [Entry(first + n, a.0, a.2)] else []
  }

  /** What the climb selected, with the measurements it selected it by. */
  function ClimbChoice(climb: Climb, selected: Entry, first: nat): Entry
    requires climb.Valid()
  {
    if climb.chosen.None? then selected.(summary := climb.summary)
    else Entry(first + climb.chosen.value, climb.attempts[climb.chosen.value].0, climb.summary)
  }

  ghost predicate FromClimb(climb: Climb, first: nat, e: Entry) {
    exists i :: 0 <= i < |climb.attempts| && e.id == first + i && e.candidate == climb.attempts[i].0
  }

  ghost predicate MeasuredAttempt(climb: Climb, e: Entry) {
    exists i :: 0 <= i < |climb.attempts| && climb.attempts[i].1 && climb.attempts[i].2.Some?
                && climb.attempts[i].0 == e.candidate && climb.attempts[i].2 == e.summary
  }

  lemma {:induction false} ClimbPassesComeFromIt(climb: Climb, n: nat, first: nat, e: Entry)
    requires n <= |climb.attempts| && e in ClimbPasses(climb.attempts[..n], first)
    ensures MeasuredAttempt(climb, e) && FromClimb(climb, first, e)
  {
    assert n > 0;
    assert climb.attempts[..n][..n - 1] == climb.attempts[..n - 1];
    if e in ClimbPasses(climb.attempts[..n - 1], first) {
      ClimbPassesComeFromIt(climb, n - 1, first, e);
    } else {
      var a := climb.attempts[n - 1];
      assert a == climb.attempts[..n][n - 1];
      assert a.1 && a.2.Some? && e == Entry(first + (n - 1), a.0, a.2);
    }
  }

  lemma {:induction false} MeasuredAttemptsAreThere(climb: Climb, n: nat, first: nat, i: nat)
    requires i < n <= |climb.attempts| && climb.attempts[i].1 && climb.attempts[i].2.Some?
    ensures Entry(first + i, climb.attempts[i].0, climb.attempts[i].2) in ClimbPasses(climb.attempts[..n], first)
  {
    assert climb.attempts[..n][..n - 1] == climb.attempts[..n - 1];
    if i < n - 1 {
      MeasuredAttemptsAreThere(climb, n - 1, first, i);
    }
  }

  /** The climb's entries are its measured passes, no more and no fewer. */
  lemma ClimbPassesAreMeasured(climb: Climb, first: nat)
    ensures forall e | e in ClimbPasses(climb.attempts, first) ::
      MeasuredAttempt(climb, e) && FromClimb(climb, first, e)
    ensures forall i | 0 <= i < |climb.attempts| && climb.attempts[i].1 && climb.attempts[i].2.Some? ::
      Entry(first + i, climb.attempts[i].0, climb.attempts[i].2) in ClimbPasses(climb.attempts, first)
  {
    var n := |climb.attempts|;
    assert climb.attempts[..n] == climb.attempts;
    forall e | e in ClimbPasses(climb.attempts, first) ensures MeasuredAttempt(climb, e) && FromClimb(climb, first, e) {
      ClimbPassesComeFromIt(climb, n, first, e);
    }
    forall i | 0 <= i < n && climb.attempts[i].1 && climb.attempts[i].2.Some?
      ensures Entry(first + i, climb.attempts[i].0, climb.attempts[i].2) in ClimbPasses(climb.attempts, first)
    {
      MeasuredAttemptsAreThere(climb, n, first, i);
    }
  }

  /** Whether there is anything to climb for, and below the voltage limit. */
  predicate Climbs(selected: Entry, clockLimit: int, voltageLimit: int) {
    clockLimit > selected.candidate.target && selected.candidate.voltage <= voltageLimit
  }

  /** The candidate the way down has come to. */
  function SelectedAfter(start: Entry, tried: seq<Tried>): Entry {
    ([start] + Passes(tried))[|Passes(tried)|]
  }

  /** All passed candidates, and the selected one, when the choice is made. */
  function Gathered(w: World, start: Entry, tried: seq<Tried>, clockLimit: int, voltageLimit: int): (seq<Entry>, Entry)
    requires w.climb.Valid()
  {
    var passed := [start] + Passes(tried);
    var selected := SelectedAfter(start, tried);
    if Climbs(selected, clockLimit, voltageLimit) then
      var choice := ClimbChoice(w.climb, selected, |passed|);
      (passed + ClimbPasses(w.climb.attempts, |passed|) + [choice], choice)
    else (passed, selected)
  }

  lemma NumbersStay(passed: seq<Entry>, more: seq<Entry>, selected: Entry, chosen: Entry, climb: Climb)
    requires selected in passed && forall i | 0 <= i < |passed| :: passed[i].id == i
    requires forall e | e in more :: FromClimb(climb, |passed|, e)
    requires (chosen.id == selected.id && chosen.candidate == selected.candidate) || FromClimb(climb, |passed|, chosen)
    ensures ByNumber(passed + more + [chosen])
  {
    var all := passed + more + [chosen];
    forall e | e in all
      ensures (e.id < |passed| && e.candidate == passed[e.id].candidate) || FromClimb(climb, |passed|, e)
    {
      if e in passed {
        var i :| 0 <= i < |passed| && passed[i] == e;
      } else if e == chosen && !FromClimb(climb, |passed|, chosen) {
        var i :| 0 <= i < |passed| && passed[i] == selected;
      }
    }
  }

  /** Where a gathered entry can come from: the start, a passed and measured probe, the climb's
      measured attempts or its choice. */
  ghost predicate Accounted(w: World, start: Entry, tried: seq<Tried>, e: Entry)
    requires w.climb.Valid()
  {
    || e == start || CameFromProbe(tried, e) || MeasuredAttempt(w.climb, e)
    || e == ClimbChoice(w.climb, SelectedAfter(start, tried), |Passes(tried)| + 1)
  }

  lemma PassedAreNumbered(first: Entry, tried: seq<Tried>)
    requires first.id == 0
    ensures var passed := [first] + Passes(tried);
      && (forall i | 0 <= i < |passed| :: passed[i].id == i)
      && SelectedAfter(first, tried) in passed
      && (forall e | e in passed :: e == first || CameFromProbe(tried, e))
  {
    PassesAreMeasured(tried);
    var passed := [first] + Passes(tried);
    forall e | e in passed ensures e == first || CameFromProbe(tried, e) {
      if e != first {
        var i :| 0 <= i < |Passes(tried)| && Passes(tried)[i] == e;
      }
    }
  }

  lemma ChoiceKeepsNumbers(passed: seq<Entry>, selected: Entry, climb: Climb)
    requires climb.Valid() && selected in passed && forall i | 0 <= i < |passed| :: passed[i].id == i
    ensures ByNumber(passed + ClimbPasses(climb.attempts, |passed|) + [ClimbChoice(climb, selected, |passed|)])
    ensures ByNumber(passed)
  {
    ClimbPassesAreMeasured(climb, |passed|);
    var choice := ClimbChoice(climb, selected, |passed|);
    if climb.chosen.Some? {
      assert FromClimb(climb, |passed|, choice);
    }
    NumbersStay(passed, ClimbPasses(climb.attempts, |passed|), selected, choice, climb);
    NumbersStay(passed, [], selected, selected, climb);
    assert forall e | e in passed :: e in passed + [] + [selected];
  }

  /** Every gathered entry is accounted for, one number is one candidate, and the selected entry is
      among them. */
  lemma GatheredAreAccounted(w: World, first: Entry, tried: seq<Tried>, clockLimit: int, voltageLimit: int)
    requires w.climb.Valid() && first.id == 0
    ensures var (all, selected) := Gathered(w, first, tried, clockLimit, voltageLimit);
      && selected in all && ByNumber(all)
      && [first] + Passes(tried) <= all
      && (forall e | e in all :: Accounted(w, first, tried, e))
  {
    var passed, selected := [first] + Passes(tried), SelectedAfter(first, tried);
    var (all, choice) := Gathered(w, first, tried, clockLimit, voltageLimit);
    PassedAreNumbered(first, tried);
    ChoiceKeepsNumbers(passed, selected, w.climb);
    ClimbPassesAreMeasured(w.climb, |passed|);
    if Climbs(selected, clockLimit, voltageLimit) {
      assert all[|all| - 1] == choice;
    }
    forall e | e in all ensures Accounted(w, first, tried, e) {
      if e in passed {
      } else if e in ClimbPasses(w.climb.attempts, |passed|) {
        assert MeasuredAttempt(w.climb, e);
      } else {
        assert e == choice;
      }
    }
  }

  /** The climb adds to what was passed exactly when the limits leave something to climb for. */
  lemma ClimbAdds(w: World, first: Entry, tried: seq<Tried>, clockLimit: int, voltageLimit: int)
    requires w.climb.Valid()
    ensures |Gathered(w, first, tried, clockLimit, voltageLimit).0| > 1 + |Passes(tried)|
       <==> && clockLimit > SelectedAfter(first, tried).candidate.target
            && SelectedAfter(first, tried).candidate.voltage <= voltageLimit
  {
  }

  /** `passed` with what the climb adds: its measured attempts, and the one it selected. */
  method AddClimb(passed: seq<Entry>, selected: Entry, climb: Climb) returns (all: seq<Entry>, chosen: Entry)
    requires climb.Valid()
    ensures chosen == ClimbChoice(climb, selected, |passed|)
    ensures all == passed + ClimbPasses(climb.attempts, |passed|) + [chosen]
  {
    all := passed;
    for i := 0 to |climb.attempts|
      invariant all == passed + ClimbPasses(climb.attempts[..i], |passed|)
    {
      assert climb.attempts[..i + 1][..i] == climb.attempts[..i];
      var a := climb.attempts[i];
      if a.1 && a.2.Some? {
        all := all + [Entry(|passed| + i, a.0, a.2)];
      }
    }
    assert climb.attempts[..|climb.attempts|] == climb.attempts;
    chosen := if climb.chosen.None? then selected.(summary := climb.summary)
              else Entry(|passed| + climb.chosen.value, climb.attempts[climb.chosen.value].0, climb.summary);
    all := all + [chosen];
  }

  /** The eligible entries, in order. */
  function EligibleOf(all: seq<Entry>, clockLimit: int, voltageLimit: int, unsafe: seq<UnsafeEntry>, tier: Tier):
    (eligible: seq<Entry>)
    ensures forall e :: e in eligible <==> e in all && Eligible(e, clockLimit, voltageLimit, unsafe, tier)
  {
    if all == [] then []
    else
      var n := |all| - 1;
      assert all == all[..n] + [all[n]];
      EligibleOf(all[..n], clockLimit, voltageLimit, unsafe, tier) +
      if Eligible(all[n], clockLimit, voltageLimit, unsafe, tier) then [all[n]] else []
  }

  method Filter(all: seq<Entry>, clockLimit: int, voltageLimit: int, unsafe: seq<UnsafeEntry>, tier: Tier)
    returns (eligible: seq<Entry>)
    ensures eligible == EligibleOf(all, clockLimit, voltageLimit, unsafe, tier)
  {
    eligible := [];
    for i := 0 to |all|
      invariant eligible == EligibleOf(all[..i], clockLimit, voltageLimit, unsafe, tier)
    {
      assert all[..i + 1][..i] == all[..i];
      if Eligible(all[i], clockLimit, voltageLimit, unsafe, tier) {
        eligible := eligible + [all[i]];
      }
    }
    assert all[..|all|] == all;
  }

  function SummariesOf(entries: seq<Entry>): seq<Option<Summary>> {
    seq(|entries|, i requires 0 <= i < |entries| => entries[i].summary)
  }

  ghost predicate HasNumber(entries: seq<Entry>, id: nat) {
    exists i :: 0 <= i < |entries| && entries[i].id == id
  }

  /** The choice at the end: for Efficiency the entry of the best efficiency; for the others the selected
      one when its candidate is among the eligible; and otherwise the last eligible one. */
  ghost predicate IsChoice(eligible: seq<Entry>, selected: Entry, tier: Tier,
                           best: seq<Option<Summary>> -> Option<nat>, chosen: Entry)
    requires eligible != []
  {
    var last, index := eligible[|eligible| - 1], best(SummariesOf(eligible));
    if tier.Efficiency? && index.Some? then index.value < |eligible| && chosen == eligible[index.value]
    else if !tier.Efficiency? && HasNumber(eligible, selected.id) then chosen == selected
    else chosen == last
  }

  method ChooseEligible(eligible: seq<Entry>, selected: Entry, tier: Tier, best: seq<Option<Summary>> -> Option<nat>)
    returns (chosen: Entry)
    requires eligible != []
    requires forall s :: best(s).Some? ==> best(s).value < |s|
    ensures IsChoice(eligible, selected, tier, best, chosen)
  {
    var last := eligible[|eligible| - 1];
    if tier.Efficiency? {
      var summaries := seq(|eligible|, i requires 0 <= i < |eligible| => eligible[i].summary);
      assert summaries == SummariesOf(eligible);
      var index := best(summaries);
      chosen := if index.Some? then eligible[index.value] else last;
      return;
    }
    for i := 0 to |eligible|
      invariant forall k | 0 <= k < i :: eligible[k].id != selected.id
    {
      if eligible[i].id == selected.id {
        return selected;
      }
    }
    return last;
  }

  /** The highest editable bin that is not above the requested voltage. */
  method VoltageLimit(bins: seq<int>, requested: int) returns (limit: Option<int>)
    requires ValidBins(bins)
    ensures limit.None? <==> bins == [] || requested < bins[0] || requested > bins[|bins| - 1]
    ensures limit.Some? ==> limit.value in bins && limit.value <= requested
                            && forall v | v in bins && v <= requested :: v <= limit.value
  {
    if bins == [] || requested < bins[0] || requested > bins[|bins| - 1] {
      return None;
    }
    var at := 0;
    for i := 0 to |bins|
      invariant 0 <= at < |bins| && bins[at] <= requested
      invariant forall k | 0 <= k < i && bins[k] <= requested :: bins[k] <= bins[at]
    {
      if bins[i] <= requested && bins[i] >= bins[at] {
        at := i;
      }
    }
    return Some(bins[at]);
  }

  function Higher(a: int, b: int): (c: int)
    ensures c >= a && c >= b && (c == a || c == b)
  {
    if a > b then a else b
  }

  /** `limit` is the highest bin that is not above the requested voltage. */
  ghost predicate IsVoltageLimit(bins: seq<int>, requested: int, limit: int) {
    limit in bins && limit <= requested && forall v | v in bins && v <= requested :: v <= limit
  }

  /** The end is the choice among the eligible entries, and a failure when there are none. */
  ghost predicate ChosenFrom(w: World, all: seq<Entry>, selected: Entry, tier: Tier, clockLimit: int,
                             voltageLimit: int, unsafe: seq<UnsafeEntry>, end: End)
  {
    var eligible := EligibleOf(all, clockLimit, voltageLimit, unsafe, tier);
    if eligible == [] then end == Failed(NothingEligible)
    else
      exists chosen :: IsChoice(eligible, selected, tier, w.bestEfficiency, chosen)
                       && end == Found(chosen.candidate, chosen.summary)
  }

  /** The choice from what was gathered. */
  method ChooseFrom(w: World, all: seq<Entry>, selected: Entry, tier: Tier, clockLimit: int, voltageLimit: int,
                    unsafe: seq<UnsafeEntry>) returns (end: End)
    requires forall s :: w.bestEfficiency(s).Some? ==> w.bestEfficiency(s).value < |s|
    ensures ChosenFrom(w, all, selected, tier, clockLimit, voltageLimit, unsafe, end)
  {
    var eligible := Filter(all, clockLimit, voltageLimit, unsafe, tier);
    if eligible == [] {
      return Failed(NothingEligible);
    }
    var chosen := ChooseEligible(eligible, selected, tier, w.bestEfficiency);
    end := Found(chosen.candidate, chosen.summary);
  }

  /** The end is an eligible entry together with its measurements. */
  ghost predicate IsEligibleEnd(eligible: seq<Entry>, end: End) {
    end.Found? && exists e :: e in eligible && end == Found(e.candidate, e.summary)
  }

  /** What the choice means.  A result has the candidate of an eligible entry, so one within both limits,
      measured and open; and its measurements are those of an eligible entry too, unless the selected
      candidate is chosen by an entry of its own while the measurements it was selected with are
      missing. */
  lemma ResultIsEligible(w: World, all: seq<Entry>, selected: Entry, tier: Tier, clockLimit: int, voltageLimit: int,
                         unsafe: seq<UnsafeEntry>, end: End)
    requires selected in all && ByNumber(all)
    requires ChosenFrom(w, all, selected, tier, clockLimit, voltageLimit, unsafe, end)
    ensures var eligible := EligibleOf(all, clockLimit, voltageLimit, unsafe, tier);
      && (end.Failed? ==> end.failure.NothingEligible?)
      && (end.Failed? <==> forall e | e in all :: !Eligible(e, clockLimit, voltageLimit, unsafe, tier))
      && (end.Found? ==> exists e :: e in eligible && e.candidate == end.candidate)
      && (end.Found? ==>
            (IsEligibleEnd(eligible, end)
             <==> tier.Efficiency? || !HasNumber(eligible, selected.id) || IsMeasured(selected.summary)))
      && (end.Found? ==> (IsEligibleEnd(eligible, end) <==> IsMeasured(end.summary)))
  {
    var eligible := EligibleOf(all, clockLimit, voltageLimit, unsafe, tier);
    if eligible == [] {
      forall e | e in all ensures !Eligible(e, clockLimit, voltageLimit, unsafe, tier) {
        assert e !in eligible;
      }
    } else {
      var chosen :| IsChoice(eligible, selected, tier, w.bestEfficiency, chosen)
                    && end == Found(chosen.candidate, chosen.summary);
      assert eligible[0] in eligible;
      if !tier.Efficiency? && HasNumber(eligible, selected.id) {
        var i :| 0 <= i < |eligible| && eligible[i].id == selected.id;
        assert eligible[i] in eligible && eligible[i].candidate == selected.candidate;
        assert IsMeasured(selected.summary) <==> Eligible(selected, clockLimit, voltageLimit, unsafe, tier);
      } else {
        assert chosen in eligible;
      }
    }
  }

  /** The climb gives the candidate it selected with that candidate's own measurements. */
  predicate GivesOwnSummary(climb: Climb, selected: Entry)
    requires climb.Valid()
  {
    climb.summary == if climb.chosen.Some? then climb.attempts[climb.chosen.value].2 else selected.summary
  }

  lemma {:induction false} ClimbPassOfNumber(attempts: seq<(Candidate, bool, Option<Summary>)>, first: nat, e: Entry)
    requires e in ClimbPasses(attempts, first)
    ensures first <= e.id < first + |attempts| && e.summary == attempts[e.id - first].2
    decreases |attempts|
  {
    var n := |attempts| - 1;
    if e in ClimbPasses(attempts[..n], first) {
      ClimbPassOfNumber(attempts[..n], first, e);
    }
  }

  /** Then entries of the selected number have the selected measurements. */
  lemma SameNumberSameSummary(w: World, first: Entry, tried: seq<Tried>, clockLimit: int, voltageLimit: int, e: Entry)
    requires w.climb.Valid() && first.id == 0 && GivesOwnSummary(w.climb, SelectedAfter(first, tried))
    requires var (all, selected) := Gathered(w, first, tried, clockLimit, voltageLimit);
             e in all && e.id == selected.id
    ensures e.summary == Gathered(w, first, tried, clockLimit, voltageLimit).1.summary
  {
    var passed, last := [first] + Passes(tried), SelectedAfter(first, tried);
    PassedAreNumbered(first, tried);
    if e in passed {
      var i :| 0 <= i < |passed| && passed[i] == e;
      assert last == passed[|passed| - 1] && last.id == |passed| - 1;
    } else if e in ClimbPasses(w.climb.attempts, |passed|) {
      ClimbPassOfNumber(w.climb.attempts, |passed|, e);
    }
  }

  /** So the result of a search whose climb is like that is always measured. */
  lemma ResultIsMeasured(w: World, first: Entry, tried: seq<Tried>, tier: Tier, clockLimit: int, voltageLimit: int,
                         unsafe: seq<UnsafeEntry>, end: End)
    requires w.climb.Valid() && first.id == 0 && GivesOwnSummary(w.climb, SelectedAfter(first, tried))
    requires var (all, selected) := Gathered(w, first, tried, clockLimit, voltageLimit);
             ChosenFrom(w, all, selected, tier, clockLimit, Higher(voltageLimit, first.candidate.voltage), unsafe, end)
    ensures end.Found? ==>
      IsEligibleEnd(EligibleOf(Gathered(w, first, tried, clockLimit, voltageLimit).0, clockLimit,
                               Higher(voltageLimit, first.candidate.voltage), unsafe, tier), end)
  {
    var (all, selected) := Gathered(w, first, tried, clockLimit, voltageLimit);
    var limit := Higher(voltageLimit, first.candidate.voltage);
    var eligible := EligibleOf(all, clockLimit, limit, unsafe, tier);
    GatheredAreAccounted(w, first, tried, clockLimit, voltageLimit);
    ResultIsEligible(w, all, selected, tier, clockLimit, limit, unsafe, end);
    if HasNumber(eligible, selected.id) {
      var i :| 0 <= i < |eligible| && eligible[i].id == selected.id;
      assert eligible[i] in eligible;
      SameNumberSameSummary(w, first, tried, clockLimit, voltageLimit, eligible[i]);
    }
  }

  /** A result has the candidate of an eligible entry, and that entry's measurements when the climb gives
      its own; and without a result nothing gathered is eligible. */
  ghost predicate EndsWithin(w: World, first: Entry, tried: seq<Tried>, all: seq<Entry>, tier: Tier, clockLimit: int,
                             limit: int, unsafe: seq<UnsafeEntry>, end: End)
    requires w.climb.Valid()
  {
    && (end.Failed? <==> forall e | e in all ::
          e.candidate.target > clockLimit || e.candidate.voltage > limit || !IsMeasured(e.summary)
          || Blocked(unsafe, tier, e.candidate.voltage, e.candidate.target))
    && (end.Found? ==>
          && end.candidate.target <= clockLimit && end.candidate.voltage <= limit
          && !Blocked(unsafe, tier, end.candidate.voltage, end.candidate.target)
          && exists e :: e in all && e.candidate == end.candidate && IsMeasured(e.summary))
    && (end.Found? && GivesOwnSummary(w.climb, SelectedAfter(first, tried)) ==>
          IsEligibleEnd(EligibleOf(all, clockLimit, limit, unsafe, tier), end))
  }

  lemma EndIsWithin(w: World, first: Entry, tried: seq<Tried>, tier: Tier, clockLimit: int, voltageLimit: int,
                    unsafe: seq<UnsafeEntry>, end: End)
    requires w.climb.Valid() && first.id == 0
    requires var (all, selected) := Gathered(w, first, tried, clockLimit, voltageLimit);
             ChosenFrom(w, all, selected, tier, clockLimit, Higher(voltageLimit, first.candidate.voltage), unsafe, end)
    ensures EndsWithin(w, first, tried, Gathered(w, first, tried, clockLimit, voltageLimit).0, tier, clockLimit,
                       Higher(voltageLimit, first.candidate.voltage), unsafe, end)
  {
    var (all, selected) := Gathered(w, first, tried, clockLimit, voltageLimit);
    var limit := Higher(voltageLimit, first.candidate.voltage);
    GatheredAreAccounted(w, first, tried, clockLimit, voltageLimit);
    ResultIsEligible(w, all, selected, tier, clockLimit, limit, unsafe, end);
    if end.Found? {
      var eligible := EligibleOf(all, clockLimit, limit, unsafe, tier);
      var e :| e in eligible && e.candidate == end.candidate;
      assert e in all && Eligible(e, clockLimit, limit, unsafe, tier);
    }
    if GivesOwnSummary(w.climb, SelectedAfter(first, tried)) {
      ResultIsMeasured(w, first, tried, tier, clockLimit, voltageLimit, unsafe, end);
    }
  }

  /** The second half: the climb, if there is one, and the choice. */
  method Conclude(w: World, first: Entry, ghost tried: seq<Tried>, passed: seq<Entry>, tier: Tier,
                  clockLimit: int, voltageLimit: int, unsafe: seq<UnsafeEntry>)
    returns (end: End, all: seq<Entry>)
    requires w.climb.Valid() && first.id == 0 && passed == [first] + Passes(tried)
    requires forall s :: w.bestEfficiency(s).Some? ==> w.bestEfficiency(s).value < |s|
    ensures all == Gathered(w, first, tried, clockLimit, voltageLimit).0
    ensures ChosenFrom(w, all, Gathered(w, first, tried, clockLimit, voltageLimit).1, tier, clockLimit,
                       Higher(voltageLimit, first.candidate.voltage), unsafe, end)
    ensures EndsWithin(w, first, tried, all, tier, clockLimit, Higher(voltageLimit, first.candidate.voltage), unsafe,
                       end)
  {
    var selected := passed[|passed| - 1];
    all := passed;
    if clockLimit > selected.candidate.target && selected.candidate.voltage <= voltageLimit {
      all, selected := AddClimb(passed, selected, w.climb);
    }
    end := ChooseFrom(w, all, selected, tier, clockLimit, Higher(voltageLimit, first.candidate.voltage), unsafe);
    EndIsWithin(w, first, tried, tier, clockLimit, voltageLimit, unsafe, end);
  }

  /** `run_custom_tier_target_search`.  It goes down to a lower clock, closed points left out, until
      it is there or a probe ends the search; then it chooses among everything that passed, so a result
      is a candidate that was measured, within both limits and open at the end; and when there is none,
      nothing that was gathered is. */
  method RunTargetSearch(w: World, bins: seq<int>, tier: Tier, start: Candidate, summary: Option<Summary>,
                         requestedVoltage: int, clockLimit: int)
    returns (end: End, tried: seq<Tried>, all: seq<Entry>, ghost down: seq<Candidate>, ghost voltageLimit: int)
    requires ValidBins(bins) && w.climb.Valid()
    requires forall s :: w.bestEfficiency(s).Some? ==> w.bestEfficiency(s).value < |s|
    ensures end.Failed? && end.failure.OutsideCurve? <==>
      bins == [] || requestedVoltage < bins[0] || requestedVoltage > bins[|bins| - 1]
    ensures down <= DownPath(start, clockLimit) && tried == TriedAfter(w, tier, down)
    ensures forall k | 0 <= k < |tried| :: OpenWhenTried(tier, tried[k]) && tried[k].candidate in down
    ensures EndsAtFailure(tried)
    ensures LastFailure(tried).Some? ==> end == Failed(LastFailure(tried).value)
    ensures !(end.Failed? && end.failure.OutsideCurve?) && LastFailure(tried).None? ==>
      && IsVoltageLimit(bins, requestedVoltage, voltageLimit)
      && down == DownPath(start, clockLimit)
      && all == Gathered(w, Entry(0, start, summary), tried, clockLimit, voltageLimit).0
      && ChosenFrom(w, all, Gathered(w, Entry(0, start, summary), tried, clockLimit, voltageLimit).1, tier, clockLimit,
                    Higher(voltageLimit, start.voltage), w.unsafe(|down|), end)
      && EndsWithin(w, Entry(0, start, summary), tried, all, tier, clockLimit, Higher(voltageLimit, start.voltage),
                    w.unsafe(|down|), end)
  {
    tried, all, down, voltageLimit := [], [], [], 0;
    var limit := VoltageLimit(bins, requestedVoltage);
    if limit.None? {
      return Failed(OutsideCurve), tried, all, down, voltageLimit;
    }
    voltageLimit := limit.value;
    var search := new Search(tier, start, summary);
    if clockLimit < start.target {
      var failure;
      failure, down := search.ClockDown(w, clockLimit);
      TriedAreOpen(w, tier, down);
      tried := search.tried;
      if failure.Some? {
        end, all := Failed(failure.value), search.passed;
        return;
      }
    }
    end, all := Conclude(w, search.start, tried, search.passed, tier, clockLimit, limit.value,
                         w.unsafe(search.readings));
  }
}

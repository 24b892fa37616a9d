/** The final soak and its retreat (auto_uv/main_loop.py): when the chosen curve fails the long
    verification, the next safer measured curve is tried, until one passes or none is left. */
module FinalVerification {
  import opened VoltageSearch
  import opened Wrappers

  type Plan = seq<(int, int)>

  /** A measurement that passed earlier: the point, the exact curve that was applied, and the
      numbers the choice between points looks at. */
  datatype Measured = Measured(voltage: int, clock: int, testedPlan: Option<Plan>,
                               effectiveClock: Option<real>, p90Clock: Option<real>, power: Option<real>,
                               temperature: Option<real>, fpsPerWatt: Option<real>, averageClock: Option<real>)

  datatype Limits = Limits(voltage: int, clock: int)

  /** What is being verified.  `limits` are the custom targets, `recovering` marks the first
      verification after a crash. */
  datatype Selection = Selection(voltage: int, clock: int, plan: Plan, limits: Option<Limits>, recovering: bool)

  /** How a verification ends: saved, rejected in a way that offers a retry, failed otherwise,
      or broken off by something that is not a scan error. */
  datatype Verdict = Passed | Rejected | Fatal | Broken

  datatype End = Saved | Critical | Raised | NothingSafer

  // ---------------------------------------------------------------------------
  // Retreating
  // ---------------------------------------------------------------------------

  /** (v, c) is a safer point than (v', c'): a lower clock, or the same clock at a higher voltage. */
  predicate Safer(v: int, c: int, v': int, c': int) {
    c < c' || (c == c' && v > v')
  }

  lemma SaferIsAStrictOrder(v: int, c: int, v': int, c': int, v'': int, c'': int)
    ensures !Safer(v, c, v, c)
    ensures Safer(v, c, v', c') && Safer(v', c', v'', c'') ==> Safer(v, c, v'', c'')
    ensures Safer(v, c, v', c') || Safer(v', c', v, c) || (v == v' && c == c')
  {
  }

  predicate Within(limits: Option<Limits>, v: int, c: int) {
    limits.Some? ==> v <= limits.value.voltage && c <= limits.value.clock
  }

  /** The filter of `choose_next_candidate_after_final_failure`. */
  predicate Eligible(m: Measured, failed: Selection, failedPoints: set<(int, int)>, unsafe: seq<UnsafeEntry>,
                     mode: Tier)
  {
    && m.testedPlan.Some?
    && (m.voltage, m.clock) !in failedPoints
    && (m.voltage > failed.voltage || m.clock < failed.clock)
    && m.clock <= failed.clock
    && !Blocked(unsafe, mode, m.voltage, m.clock)
    && Within(failed.limits, m.voltage, m.clock)
  }

  method Candidates(history: seq<Measured>, failed: Selection, failedPoints: set<(int, int)>,
                    unsafe: seq<UnsafeEntry>, mode: Tier) returns (candidates: seq<Measured>)
    requires AllBehind(failedPoints, failed)
    ensures candidates == OptionsOf(history, unsafe, mode, failed)
  {
    candidates := [];
    for i := 0 to |history|
      invariant candidates == OptionsOf(history[..i], unsafe, mode, failed)
    {
      assert history[..i + 1][..i] == history[..i];
      FailedSetIsImplied(failedPoints, failed, history[i].voltage, history[i].clock);
      if Eligible(history[i], failed, failedPoints, unsafe, mode) {
        candidates := candidates + [history[i]];
      }
    }
    assert history[..|history|] == history;
  }

  /** A measured point to retreat to: safer than the failed one, open, and inside the custom limits. */
  ghost predicate IsOption(m: Measured, unsafe: seq<UnsafeEntry>, mode: Tier, failed: Selection) {
    && m.testedPlan.Some?
    && (m.clock < failed.clock || (m.clock == failed.clock && m.voltage > failed.voltage))
    && !Blocked(unsafe, mode, m.voltage, m.clock)
    && (failed.limits.Some? ==> m.voltage <= failed.limits.value.voltage && m.clock <= failed.limits.value.clock)
  }

  /** The points to retreat to, in the order of the history. */
  ghost function OptionsOf(history: seq<Measured>, unsafe: seq<UnsafeEntry>, mode: Tier, failed: Selection):
    (options: seq<Measured>)
    ensures forall m :: m in options <==> m in history && IsOption(m, unsafe, mode, failed)
  {
    if history == [] then []
    else
      var n := |history| - 1;
      assert history == history[..n] + [history[n]];
      OptionsOf(history[..n], unsafe, mode, failed) +
      if IsOption(history[n], unsafe, mode, failed) then [history[n]] else []
  }

  /** The failed points so far are the current one and points it is safer than, so that looking
      a candidate up among them never decides anything. */
  ghost predicate AllBehind(failedPoints: set<(int, int)>, current: Selection) {
    forall p | p in failedPoints ::
      p == (current.voltage, current.clock) || Safer(current.voltage, current.clock, p.0, p.1)
  }

  lemma FailedSetIsImplied(failedPoints: set<(int, int)>, current: Selection, v: int, c: int)
    requires AllBehind(failedPoints, current)
    ensures (v > current.voltage || c < current.clock) && c <= current.clock
       <==> Safer(v, c, current.voltage, current.clock)
    ensures Safer(v, c, current.voltage, current.clock) ==> (v, c) !in failedPoints
  {
  }

  // ---------------------------------------------------------------------------
  // Choosing among the safer points
  // ---------------------------------------------------------------------------

  function Or(value: Option<real>, missing: real): real {
    if value.Some? then value.value else missing
  }

  /** `auto_oc_probe_key`: the higher measured clock, then the cheaper point. */
  function ClockKey(m: Measured): seq<real> {
    [Or(m.effectiveClock, -1.0), Or(m.p90Clock, -1.0), -(m.voltage as real),
     -Or(m.power, 1000000.0), -Or(m.temperature, 1000000.0)]
  }

  /** The key of `best_efficiency_candidate_index`; a missing power sorts below every power. */
  function EfficiencyKey(m: Measured): seq<real> {
    [Or(m.fpsPerWatt, 0.0), Or(m.averageClock, -1.0), if m.power.Some? then 1.0 else 0.0, -Or(m.power, 0.0)]
  }

  predicate LexLess(a: seq<real>, b: seq<real>) {
    b != [] && (a == [] || a[0] < b[0] || (a[0] == b[0] && LexLess(a[1..], b[1..])))
  }

  lemma LexFromLast(a: seq<real>, b: seq<real>, i: nat)
    requires i < |a| == |b|
    ensures LexLess(a[i..], b[i..]) <==> a[i] < b[i] || (a[i] == b[i] && i + 1 < |a| && LexLess(a[i + 1..], b[i + 1..]))
  {
    assert a[i..][1..] == a[i + 1..] && b[i..][1..] == b[i + 1..];
  }

  /** Of two fully measured points the one with the higher clock is preferred; on a tie the one with the
      higher 90th percentile, then the lower voltage, the lower power, the lower temperature. */
  lemma ClockKeyOrders(m: Measured, m': Measured)
    requires m.effectiveClock.Some? && m.p90Clock.Some? && m.power.Some? && m.temperature.Some?
    requires m'.effectiveClock.Some? && m'.p90Clock.Some? && m'.power.Some? && m'.temperature.Some?
    ensures LexLess(ClockKey(m), ClockKey(m'))
       <==> || m.effectiveClock.value < m'.effectiveClock.value
            || (m.effectiveClock == m'.effectiveClock &&
                (|| m.p90Clock.value < m'.p90Clock.value
                 || (m.p90Clock == m'.p90Clock &&
                     (|| m.voltage > m'.voltage
                      || (m.voltage == m'.voltage &&
                          (|| m.power.value > m'.power.value
                           || (m.power == m'.power && m.temperature.value > m'.temperature.value)))))))
  {
    var a, b := ClockKey(m), ClockKey(m');
    assert a[0..] == a && b[0..] == b;
    LexFromLast(a, b, 0);
    LexFromLast(a, b, 1);
    LexFromLast(a, b, 2);
    LexFromLast(a, b, 3);
    LexFromLast(a, b, 4);
  }

  /** What was not measured loses: an unknown clock against any known one; and, all else equal, an unknown
      90th percentile, and an unknown cost against one below a million. */
  lemma UnknownLoses(m: Measured, m': Measured)
    ensures m.effectiveClock.None? && m'.effectiveClock.Some? && m'.effectiveClock.value >= 0.0 ==>
      LexLess(ClockKey(m), ClockKey(m'))
    ensures m'.p90Clock.Some? && m'.p90Clock.value >= 0.0 ==>
      LexLess(ClockKey(m'.(p90Clock := None)), ClockKey(m'))
    ensures m'.power.Some? && m'.power.value < 1000000.0 ==>
      LexLess(ClockKey(m'.(power := None)), ClockKey(m'))
    ensures m'.temperature.Some? && m'.temperature.value < 1000000.0 ==>
      LexLess(ClockKey(m'.(temperature := None)), ClockKey(m'))
  {
    UnknownLosesAt(ClockKey(m'.(p90Clock := None)), ClockKey(m'), 1);
    UnknownLosesAt(ClockKey(m'.(power := None)), ClockKey(m'), 3);
    UnknownLosesAt(ClockKey(m'.(temperature := None)), ClockKey(m'), 4);
  }

  lemma {:induction false} UnknownLosesAt(a: seq<real>, b: seq<real>, i: nat)
    requires i < |a| == |b| && a[..i] == b[..i]
    ensures a[i] < b[i] ==> LexLess(a, b)
    decreases i
  {
    if i > 0 {
      assert a[0] == a[..i][0] == b[..i][0] == b[0];
      assert a[1..][..i - 1] == a[..i][1..] == b[..i][1..] == b[1..][..i - 1];
      UnknownLosesAt(a[1..], b[1..], i - 1);
    }
  }

  /** Of two scored points the one with more frames per watt is preferred; on a tie the one with the higher
      clock, then the one with less power, where a missing power is worse than any. */
  lemma EfficiencyKeyOrders(m: Measured, m': Measured)
    requires m.fpsPerWatt.Some? && m.averageClock.Some? && m'.fpsPerWatt.Some? && m'.averageClock.Some?
    ensures LexLess(EfficiencyKey(m), EfficiencyKey(m'))
       <==> || m.fpsPerWatt.value < m'.fpsPerWatt.value
            || (m.fpsPerWatt == m'.fpsPerWatt &&
                (|| m.averageClock.value < m'.averageClock.value
                 || (m.averageClock == m'.averageClock && m'.power.Some? &&
                     (m.power.None? || m.power.value > m'.power.value))))
  {
    var a, b := EfficiencyKey(m), EfficiencyKey(m');
    assert a[0..] == a && b[0..] == b;
    LexFromLast(a, b, 0);
    LexFromLast(a, b, 1);
    LexFromLast(a, b, 2);
    LexFromLast(a, b, 3);
  }

  /** The first entry with a maximal key. */
  ghost predicate IsFirstBest(candidates: seq<Measured>, key: Measured -> seq<real>, at: nat) {
    && at < |candidates|
    && (forall k | 0 <= k < at :: LexLess(key(candidates[k]), key(candidates[at])))
    && (forall k | at <= k < |candidates| :: !LexLess(key(candidates[at]), key(candidates[k])))
  }

  /** Python's `max` over the candidates: the first with a maximal key. */
  method Best(candidates: seq<Measured>, key: Measured -> seq<real>) returns (at: nat)
    requires candidates != []
    ensures IsFirstBest(candidates, key, at)
  {
    at := 0;
    for i := 0 to |candidates|
      invariant at < |candidates| && (at < i || at == 0)
      invariant forall k | 0 <= k < at :: LexLess(key(candidates[k]), key(candidates[at]))
      invariant forall k | at <= k < i :: !LexLess(key(candidates[at]), key(candidates[k]))
    {
      LexAsymmetric(key(candidates[i]), key(candidates[i]));
      if LexLess(key(candidates[at]), key(candidates[i])) {
        forall k | 0 <= k < i ensures LexLess(key(candidates[k]), key(candidates[i])) {
          LexAsymmetric(key(candidates[k]), key(candidates[at]));
          LexBetween(key(candidates[k]), key(candidates[at]), key(candidates[i]));
        }
        at := i;
      }
    }
  }

  lemma {:induction false} LexBetween(a: seq<real>, b: seq<real>, c: seq<real>)
    requires !LexLess(b, a) && LexLess(b, c)
    ensures LexLess(a, c)
    decreases |a| + |b| + |c|
  {
    if a != [] && b != [] && c != [] && a[0] == b[0] == c[0] {
      LexBetween(a[1..], b[1..], c[1..]);
    }
  }

  lemma {:induction false} LexAsymmetric(a: seq<real>, b: seq<real>)
    ensures LexLess(a, b) ==> !LexLess(b, a)
    decreases |a|
  {
    if a != [] && b != [] {
      LexAsymmetric(a[1..], b[1..]);
    }
  }

  predicate Scored(m: Measured) {
    m.fpsPerWatt.Some? && m.fpsPerWatt.value > 0.0
  }

  /** The candidates with a positive measure of frames per watt, in order. */
  ghost function ScoredOf(candidates: seq<Measured>): (scored: seq<Measured>)
    ensures forall m :: m in scored <==> m in candidates && m.fpsPerWatt.Some? && m.fpsPerWatt.value > 0.0
  {
    if candidates == [] then []
    else
      var n := |candidates| - 1;
      assert candidates == candidates[..n] + [candidates[n]];
      ScoredOf(candidates[..n]) + if Scored(candidates[n]) then [candidates[n]] else []
  }

  method ScoredOnes(candidates: seq<Measured>) returns (scored: seq<Measured>)
    ensures scored == ScoredOf(candidates)
  {
    scored := [];
    for i := 0 to |candidates|
      invariant scored == ScoredOf(candidates[..i])
    {
      assert candidates[..i + 1][..i] == candidates[..i];
      if Scored(candidates[i]) {
        scored := scored + [candidates[i]];
      }
    }
    assert candidates[..|candidates|] == candidates;
  }

  ghost predicate FirstBestIs(candidates: seq<Measured>, key: Measured -> seq<real>, m: Measured) {
    exists at: nat :: IsFirstBest(candidates, key, at) && m == candidates[at]
  }

  /** The best safer point: for Efficiency the highest measured frames per watt, otherwise (or
      when nothing carries that measure) the highest measured clock. */
  ghost predicate IsChoice(m: Measured, candidates: seq<Measured>, mode: Tier) {
    if mode.Efficiency? && ScoredOf(candidates) != [] then FirstBestIs(ScoredOf(candidates), EfficiencyKey, m)
    else FirstBestIs(candidates, ClockKey, m)
  }

  method Choose(candidates: seq<Measured>, mode: Tier) returns (m: Measured)
    requires candidates != []
    ensures IsChoice(m, candidates, mode) && m in candidates
  {
    if mode.Efficiency? {
      var scored := ScoredOnes(candidates);
      if scored != [] {
        var at := Best(scored, EfficiencyKey);
        m := scored[at];
        assert m in scored;
        return;
      }
    }
    var at := Best(candidates, ClockKey);
    m := candidates[at];
  }

  // ---------------------------------------------------------------------------
  // The loop
  // ---------------------------------------------------------------------------

  /** The step from one attempt to the next: to the best of the points to retreat to, under its own plan. */
  ghost predicate Retreats(history: seq<Measured>, unsafe: seq<UnsafeEntry>, mode: Tier, from: Selection,
                           to: Selection)
  {
    exists m :: IsChoice(m, OptionsOf(history, unsafe, mode, from), mode) && m.testedPlan == Some(to.plan) &&
      to == Selection(m.voltage, m.clock, to.plan, from.limits, from.recovering)
  }

  /** Nothing measured is safer, open and inside the limits. */
  ghost predicate NoneSafer(history: seq<Measured>, unsafe: seq<UnsafeEntry>, mode: Tier, failed: Selection) {
    forall m | m in history :: !IsOption(m, unsafe, mode, failed)
  }

  /** A retreat goes to a measured point that is safer, open and inside the limits. */
  lemma RetreatIsSafer(history: seq<Measured>, unsafe: seq<UnsafeEntry>, mode: Tier, from: Selection, to: Selection)
    returns (m: Measured)
    requires Retreats(history, unsafe, mode, from, to)
    ensures m in history && IsOption(m, unsafe, mode, from)
    ensures m.voltage == to.voltage && m.clock == to.clock && m.testedPlan == Some(to.plan)
    ensures Safer(to.voltage, to.clock, from.voltage, from.clock)
    ensures to.limits == from.limits && Within(from.limits, to.voltage, to.clock)
  {
    var options := OptionsOf(history, unsafe, mode, from);
    m :| IsChoice(m, options, mode) && m.testedPlan == Some(to.plan)
         && to == Selection(m.voltage, m.clock, to.plan, from.limits, from.recovering);
    ChoiceIsCandidate(m, options, mode);
  }

  lemma ChoiceIsCandidate(m: Measured, candidates: seq<Measured>, mode: Tier)
    requires IsChoice(m, candidates, mode)
    ensures m in candidates
  {
    if mode.Efficiency? && ScoredOf(candidates) != [] {
      var at: nat :| IsFirstBest(ScoredOf(candidates), EfficiencyKey, at) && m == ScoredOf(candidates)[at];
      assert m in ScoredOf(candidates);
    }
  }

  /** `choose_next_candidate_after_final_failure` */
  method ChooseNext(failed: Selection, history: seq<Measured>, failedPoints: set<(int, int)>,
                    unsafe: seq<UnsafeEntry>, mode: Tier) returns (next: Option<Selection>)
    requires AllBehind(failedPoints, failed)
    ensures next.None? <==> NoneSafer(history, unsafe, mode, failed)
    ensures next.Some? ==> Retreats(history, unsafe, mode, failed, next.value)
  {
    var candidates := Candidates(history, failed, failedPoints, unsafe, mode);
    if candidates == [] {
      assert forall m | m in history :: m in candidates <==> IsOption(m, unsafe, mode, failed);
      return None;
    }
    assert candidates[0] in candidates;
    var m := Choose(candidates, mode);
    next := Some(failed.(voltage := m.voltage, clock := m.clock, plan := m.testedPlan.value));
  }

  /** The measured points safer than the current one. */
  ghost function StillSafer(history: seq<Measured>, current: Selection): set<(int, int)> {
    set m | m in history && Safer(m.voltage, m.clock, current.voltage, current.clock) :: (m.voltage, m.clock)
  }

  lemma RetreatShrinks(history: seq<Measured>, unsafe: seq<UnsafeEntry>, mode: Tier, from: Selection, to: Selection)
    requires Retreats(history, unsafe, mode, from, to)
    ensures StillSafer(history, to) < StillSafer(history, from)
  {
    var m := RetreatIsSafer(history, unsafe, mode, from, to);
    assert (m.voltage, m.clock) in StillSafer(history, from);
    assert (m.voltage, m.clock) !in StillSafer(history, to);
  }

  /** Attempt `k` was rejected, and `to` is the retreat from it. */
  ghost function RetryRule(history: seq<Measured>, blacklist: nat -> seq<UnsafeEntry>, mode: Tier,
                           verify: (nat, Selection) -> Verdict): (nat, Selection, Selection) -> bool
  {
    (k: nat, from: Selection, to: Selection) =>
      verify(k, from).Rejected? && Retreats(history, blacklist(k), mode, from, to)
  }

  /** Each attempt follows the one before it by the rule. */
  ghost predicate IsChain(trail: seq<Selection>, retry: (nat, Selection, Selection) -> bool) {
    forall i: nat | 1 <= i < |trail| :: retry(i - 1, trail[i - 1], trail[i])
  }

  lemma ChainOneMore(trail: seq<Selection>, retry: (nat, Selection, Selection) -> bool, next: Selection)
    requires trail != [] && IsChain(trail, retry) && retry(|trail| - 1, trail[|trail| - 1], next)
    ensures IsChain(trail + [next], retry)
  {
    var more := trail + [next];
    forall i | 1 <= i < |more| ensures retry(i - 1, more[i - 1], more[i]) {
      assert more[i - 1] == trail[i - 1];
      assert i < |trail| ==> more[i] == trail[i];
    }
  }

  ghost predicate IsTrail(selection: Selection, history: seq<Measured>, blacklist: nat -> seq<UnsafeEntry>, mode: Tier,
                          verify: (nat, Selection) -> Verdict, trail: seq<Selection>)
  {
    trail != [] && trail[0] == selection && IsChain(trail, RetryRule(history, blacklist, mode, verify))
  }

  lemma TrailOneMore(selection: Selection, history: seq<Measured>, blacklist: nat -> seq<UnsafeEntry>, mode: Tier,
                     verify: (nat, Selection) -> Verdict, trail: seq<Selection>, next: Selection)
    requires IsTrail(selection, history, blacklist, mode, verify, trail)
    requires var n := |trail| - 1;
      verify(n, trail[n]).Rejected? && Retreats(history, blacklist(n), mode, trail[n], next)
    ensures IsTrail(selection, history, blacklist, mode, verify, trail + [next])
  {
    ChainOneMore(trail, RetryRule(history, blacklist, mode, verify), next);
  }

  ghost predicate IsSaferStep(from: Selection, to: Selection) {
    && Safer(to.voltage, to.clock, from.voltage, from.clock)
    && to.limits == from.limits && Within(from.limits, to.voltage, to.clock)
  }

  lemma RetryIsSafer(history: seq<Measured>, blacklist: nat -> seq<UnsafeEntry>, mode: Tier,
                     verify: (nat, Selection) -> Verdict, k: nat, from: Selection, to: Selection)
    requires RetryRule(history, blacklist, mode, verify)(k, from, to)
    ensures IsSaferStep(from, to)
  {
    var m := RetreatIsSafer(history, blacklist(k), mode, from, to);
  }

  lemma {:induction false} StepsAreStrict(trail: seq<Selection>, i: nat, j: nat)
    requires forall k | 1 <= k < |trail| :: IsSaferStep(trail[k - 1], trail[k])
    requires i < j < |trail|
    ensures IsSaferStep(trail[i], trail[j])
    decreases j
  {
    assert IsSaferStep(trail[j - 1], trail[j]);
    if i < j - 1 {
      StepsAreStrict(trail, i, j - 1);
    }
  }

  /** No point is verified twice. */
  lemma TrailIsStrict(selection: Selection, history: seq<Measured>, blacklist: nat -> seq<UnsafeEntry>, mode: Tier,
                      verify: (nat, Selection) -> Verdict, trail: seq<Selection>, i: nat, j: nat)
    requires IsTrail(selection, history, blacklist, mode, verify, trail) && i < j < |trail|
    ensures Safer(trail[j].voltage, trail[j].clock, trail[i].voltage, trail[i].clock)
    ensures trail[j].limits == trail[i].limits && Within(trail[i].limits, trail[j].voltage, trail[j].clock)
  {
    forall k | 1 <= k < |trail| ensures IsSaferStep(trail[k - 1], trail[k]) {
      RetryIsSafer(history, blacklist, mode, verify, k - 1, trail[k - 1], trail[k]);
    }
    StepsAreStrict(trail, i, j);
  }

  /** `run_final_verification_with_fallbacks`: `verify(k, s)` is the outcome of attempt `k`,
      `blacklist(k)` the failures on record after it.  It ends, whatever the outcomes. */
  method RunWithFallbacks(selection: Selection, history: seq<Measured>, mode: Tier,
                          verify: (nat, Selection) -> Verdict, blacklist: nat -> seq<UnsafeEntry>)
    returns (end: End, trail: seq<Selection>)
    ensures IsTrail(selection, history, blacklist, mode, verify, trail)
    ensures IsEnd(end, history, blacklist, mode, verify, trail)
  {
    var current := selection;
    var failedPoints: set<(int, int)> := {};
    trail := [selection];
    while true
      invariant IsTrail(selection, history, blacklist, mode, verify, trail)
      invariant trail[|trail| - 1] == current
      invariant AllBehind(failedPoints, current)
      decreases StillSafer(history, current)
    {
      var n := |trail| - 1;
      var verdict := verify(n, current);
      if verdict.Passed? {
        return Saved, trail;
      }
      if verdict.Broken? || (verdict.Fatal? && !current.recovering) {
        return Raised, trail;
      }
      if current.recovering {
        return Critical, trail;
      }
      failedPoints := failedPoints + {(current.voltage, current.clock)};
      var next := ChooseNext(current, history, failedPoints, blacklist(n), mode);
      if next.None? {
        return NothingSafer, trail;
      }
      RetreatShrinks(history, blacklist(n), mode, current, next.value);
      ghost var m := RetreatIsSafer(history, blacklist(n), mode, current, next.value);
      StillBehind(failedPoints, current, next.value);
      TrailOneMore(selection, history, blacklist, mode, verify, trail, next.value);
      trail := trail + [next.value];
      current := next.value;
    }
  }

  lemma StillBehind(failedPoints: set<(int, int)>, current: Selection, next: Selection)
    requires AllBehind(failedPoints, current)
    requires Safer(next.voltage, next.clock, current.voltage, current.clock)
    ensures AllBehind(failedPoints, next)
  {
  }

  /** Why the loop stopped where it did. */
  ghost predicate IsEnd(end: End, history: seq<Measured>, blacklist: nat -> seq<UnsafeEntry>, mode: Tier,
                        verify: (nat, Selection) -> Verdict, trail: seq<Selection>)
    requires trail != []
  {
    var n := |trail| - 1;
    var verdict := verify(n, trail[n]);
    match end
    case Saved => verdict.Passed?
    case Critical => (verdict.Rejected? || verdict.Fatal?) && trail[n].recovering
    case Raised => verdict.Broken? || (verdict.Fatal? && !trail[n].recovering)
    case NothingSafer => verdict.Rejected? && !trail[n].recovering
                         && NoneSafer(history, blacklist(n), mode, trail[n])
  }
}

/** The rungs of the performance Auto-OC climb (auto_uv/auto_oc/ladder.py). */
module OcLadder {
  import opened VoltageSearch
  import opened Wrappers

  // ---------------------------------------------------------------------------
  // Rounding
  // ---------------------------------------------------------------------------

  predicate Even(n: int) {
    n % 2 == 0
  }

  /** Python's `round`: to the nearest integer, halves to the even one. */
  function Round(x: real): (n: int)
    ensures -0.5 <= x - n as real <= 0.5
    ensures x - n as real == 0.5 || x - n as real == -0.5 ==> n % 2 == 0
  {
    var below := x.Floor;
    var part := x - below as real;
    if part < 0.5 || (part == 0.5 && Even(below)) then below else below + 1
  }

  lemma RoundIsMonotone(x: real, y: real)
    requires x <= y
    ensures Round(x) <= Round(y)
  {
    var n, m := Round(x), Round(y);
    assert n <= m + 1;
    assert n == m + 1 ==> Even(n) && Even(m);
  }

  lemma RoundOfInteger(n: int)
    ensures Round(n as real) == n
  {
  }

  // ---------------------------------------------------------------------------
  // Clocks
  // ---------------------------------------------------------------------------

  function Larger(a: int, b: int): int {
    if a > b then a else b
  }

  function Smaller(a: int, b: int): int {
    if a < b then a else b
  }

  /** `snap_target_clock`; a clock that is not positive is refused. */
  function SnapTargetClock(requested: int, clockStep: int): Option<int> {
    if requested <= 0 then None
    else
      var step := Larger(1, clockStep);
      Some(Round(requested as real / step as real) * step)
  }

  /** `bounded_clock` */
  function BoundedClock(requested: int, start: int, end: int, clockStep: int): Option<int> {
    if requested >= end then Some(end)
    else
      var snapped := SnapTargetClock(requested, Larger(1, clockStep));
      if snapped.None? then None else Some(Larger(start, Smaller(end, snapped.value)))
  }

  /** `m` steps are as near to the request as can be, an even number of them when there are two such. */
  ghost predicate IsSnapped(requested: int, step: int, m: int) {
    && -step <= 2 * (requested - m * step) <= step
    && (2 * (requested - m * step) == step || 2 * (requested - m * step) == -step ==> m % 2 == 0)
  }

  lemma RoundIsSnapped(requested: int, step: int)
    requires step > 0
    ensures IsSnapped(requested, step, Round(requested as real / step as real))
  {
    var ratio := requested as real / step as real;
    GapIsOff(requested, step, ratio, Round(ratio));
    OffIsSnapped(requested - Round(ratio) * step, step, ratio - Round(ratio) as real);
  }

  lemma GapIsOff(requested: int, step: int, ratio: real, m: int)
    requires step > 0 && ratio == requested as real / step as real
    ensures (ratio - m as real) * step as real == (requested - m * step) as real
  {
    assert ratio * step as real == requested as real;
    assert m as real * step as real == (m * step) as real;
  }

  lemma OffIsSnapped(off: int, step: int, gap: real)
    requires -0.5 <= gap <= 0.5 && step > 0 && gap * step as real == off as real
    ensures -step <= 2 * off <= step
    ensures 2 * off == step || 2 * off == -step ==> gap == 0.5 || gap == -0.5
  {
    HalfOf(gap, step as real, off as real);
    TwiceInReals(off, step, off as real);
  }

  lemma TwiceInReals(off: int, step: int, x: real)
    requires x == off as real
    ensures 2 * off <= step <==> 2.0 * x <= step as real
    ensures -step <= 2 * off <==> -(step as real) <= 2.0 * x
    ensures 2 * off == step <==> 2.0 * x == step as real
    ensures 2 * off == -step <==> 2.0 * x == -(step as real)
  {
    assert (2 * off) as real == 2.0 * x;
  }

  lemma HalfOf(gap: real, step: real, x: real)
    requires -0.5 <= gap <= 0.5 && step > 0.0 && x == gap * step
    ensures -step <= 2.0 * x <= step
    ensures 2.0 * x == step ==> gap == 0.5
    ensures 2.0 * x == -step ==> gap == -0.5
  {
    SignOfProduct(0.5 - gap, step);
    SignOfProduct(gap + 0.5, step);
    assert (0.5 - gap) * step == 0.5 * step - x && (gap + 0.5) * step == x + 0.5 * step;
  }

  /** `c` is `x`, or the end of the range that `x` is beyond. */
  ghost predicate IsKeptWithin(x: int, start: int, end: int, c: int) {
    start <= c <= end && (c == x || (c == start && x < start) || (c == end && x > end))
  }

  /** The clock of a request: the end from there on; none for a request that is not positive; and else the
      nearest multiple of the step, kept between start and end. */
  lemma BoundedClockInNumbers(requested: int, start: int, end: int, clockStep: int) returns (m: int)
    requires start <= end
    ensures var clock := BoundedClock(requested, start, end, clockStep);
      if requested >= end then clock == Some(end)
      else if requested <= 0 then clock.None?
      else
        var step := if clockStep < 1 then 1 else clockStep;
        IsSnapped(requested, step, m) && clock.Some? && IsKeptWithin(m * step, start, end, clock.value)
  {
    var step := if clockStep < 1 then 1 else clockStep;
    RoundIsSnapped(requested, step);
    m := Round(requested as real / step as real);
  }

  lemma QuotientKeepsOrder(a: real, b: real, d: real)
    requires a <= b && d > 0.0
    ensures a / d <= b / d
  {
  }

  lemma ProductKeepsOrder(a: int, b: int, d: int)
    requires a <= b && d > 0
    ensures a * d <= b * d
  {
  }

  /** A larger request never gets a smaller clock, and the clocks stay within the two ends. */
  lemma BoundedClockIsMonotone(r: int, q: int, start: int, end: int, clockStep: int)
    requires r <= q && start <= end
    requires BoundedClock(r, start, end, clockStep).Some?
    ensures BoundedClock(q, start, end, clockStep).Some?
    ensures start <= BoundedClock(r, start, end, clockStep).value <= BoundedClock(q, start, end, clockStep).value <= end
  {
    if q < end {
      var step := Larger(1, clockStep);
      QuotientKeepsOrder(r as real, q as real, step as real);
      RoundIsMonotone(r as real / step as real, q as real / step as real);
      ProductKeepsOrder(Round(r as real / step as real), Round(q as real / step as real), step);
    }
  }

  // ---------------------------------------------------------------------------
  // Interpolation
  // ---------------------------------------------------------------------------

  type Positive = n: nat | n > 0 witness 1

  /** From one verified point to the end of the climb, in `count` equal parts. */
  datatype Climb = Climb(startVoltage: int, startClock: int, endVoltage: int, endClock: int, count: Positive,
                         clockStep: int)
  {
    predicate Valid() {
      startVoltage <= endVoltage && startClock <= endClock
    }

    function Ratio(raw: nat): real {
      raw as real / count as real
    }

    function Requested(raw: nat): int {
      Round(Between(startClock, endClock, Ratio(raw)))
    }

    function Clock(raw: nat): Option<int> {
      BoundedClock(Requested(raw), startClock, endClock, clockStep)
    }

    /** `interpolated_voltage` */
    function Voltage(voltages: seq<int>, raw: nat): int
      requires voltages != []
    {
      if startVoltage == endVoltage then startVoltage
      else Nearest(voltages, Between(startVoltage, endVoltage, Ratio(raw)))
    }
  }

  function Between(a: int, b: int, ratio: real): real {
    a as real + (b - a) as real * ratio
  }

  function Distance(v: int, x: real): real {
    if v as real >= x then v as real - x else x - v as real
  }

  /** Python's `min` over the distances: the first voltage that is closest. */
  function Nearest(voltages: seq<int>, x: real): (v: int)
    requires voltages != []
    ensures v in voltages
    ensures forall u | u in voltages :: Distance(v, x) <= Distance(u, x)
  {
    var n := |voltages| - 1;
    if n == 0 then voltages[0]
    else
      var best := Nearest(voltages[..n], x);
      assert voltages == voltages[..n] + [voltages[n]];
      if Distance(voltages[n], x) < Distance(best, x) then voltages[n] else best
  }

  ghost predicate Increasing(s: seq<int>) {
    forall i, j | 0 <= i < j < |s| :: s[i] < s[j]
  }

  /** Of two equally close voltages the lower one is taken. */
  lemma {:induction false} NearestIsLowest(voltages: seq<int>, x: real, u: int)
    requires Increasing(voltages) && u in voltages && Distance(u, x) == Distance(Nearest(voltages, x), x)
    ensures Nearest(voltages, x) <= u
  {
    var n := |voltages| - 1;
    if n > 0 && u != voltages[n] {
      assert voltages == voltages[..n] + [voltages[n]];
      NearestIsLowest(voltages[..n], x, u);
    }
  }

  lemma NearestIsMonotone(voltages: seq<int>, x: real, y: real)
    requires voltages != [] && Increasing(voltages) && x <= y
    ensures Nearest(voltages, x) <= Nearest(voltages, y)
  {
    var v, w := Nearest(voltages, x), Nearest(voltages, y);
    if Distance(w, x) == Distance(v, x) {
      NearestIsLowest(voltages, x, w);
    }
  }

  lemma NearestToEnd(voltages: seq<int>, end: int)
    requires voltages != [] && Increasing(voltages) && forall v | v in voltages :: v <= end
    ensures Nearest(voltages, end as real) == voltages[|voltages| - 1]
  {
    var last := voltages[|voltages| - 1];
    assert last in voltages;
    assert forall v | v in voltages :: v <= last;
  }

  lemma RatioIsMonotone(c: Climb, i: nat, j: nat)
    requires i <= j <= c.count
    ensures 0.0 <= c.Ratio(i) <= c.Ratio(j) <= 1.0 == c.Ratio(c.count)
  {
    QuotientKeepsOrder(0.0, i as real, c.count as real);
    QuotientKeepsOrder(i as real, j as real, c.count as real);
    QuotientKeepsOrder(j as real, c.count as real, c.count as real);
  }

  lemma BetweenIsMonotone(a: int, b: int, r: real, q: real)
    requires a <= b && 0.0 <= r <= q <= 1.0
    ensures a as real <= Between(a, b, r) <= Between(a, b, q) <= b as real
  {
    var d := (b - a) as real;
    assert d >= 0.0;
    assert d * 0.0 <= d * r <= d * q <= d * 1.0;
  }

  /** Higher rungs ask for no less: of the clock, and of the voltage. */
  lemma ClocksRise(c: Climb, i: nat, j: nat)
    requires c.Valid() && i <= j <= c.count
    ensures c.startClock <= c.Requested(i) <= c.Requested(j) <= c.endClock == c.Requested(c.count)
    ensures c.Clock(i).Some? ==>
      c.Clock(j).Some? && c.startClock <= c.Clock(i).value <= c.Clock(j).value <= c.endClock
    ensures c.Clock(c.count) == Some(c.endClock)
  {
    RatioIsMonotone(c, i, j);
    BetweenIsMonotone(c.startClock, c.endClock, c.Ratio(i), c.Ratio(j));
    BetweenIsMonotone(c.startClock, c.endClock, c.Ratio(j), 1.0);
    RoundOfInteger(c.startClock);
    RoundOfInteger(c.endClock);
    RoundIsMonotone(c.startClock as real, Between(c.startClock, c.endClock, c.Ratio(i)));
    RoundIsMonotone(Between(c.startClock, c.endClock, c.Ratio(i)), Between(c.startClock, c.endClock, c.Ratio(j)));
    RoundIsMonotone(Between(c.startClock, c.endClock, c.Ratio(j)), c.endClock as real);
    assert Between(c.startClock, c.endClock, 1.0) == c.endClock as real;
    if c.Clock(i).Some? {
      BoundedClockIsMonotone(c.Requested(i), c.Requested(j), c.startClock, c.endClock, c.clockStep);
    }
  }

  lemma VoltagesRise(c: Climb, voltages: seq<int>, i: nat, j: nat)
    requires c.Valid() && i <= j <= c.count && c.startVoltage < c.endVoltage
    requires voltages != [] && Increasing(voltages) && forall v | v in voltages :: v <= c.endVoltage
    ensures c.Voltage(voltages, i) <= c.Voltage(voltages, j) <= voltages[|voltages| - 1] == c.Voltage(voltages, c.count)
  {
    RatioIsMonotone(c, i, j);
    BetweenIsMonotone(c.startVoltage, c.endVoltage, c.Ratio(i), c.Ratio(j));
    NearestIsMonotone(voltages, Between(c.startVoltage, c.endVoltage, c.Ratio(i)),
                      Between(c.startVoltage, c.endVoltage, c.Ratio(j)));
    assert Between(c.startVoltage, c.endVoltage, 1.0) == c.endVoltage as real;
    NearestToEnd(voltages, c.endVoltage);
    var last := voltages[|voltages| - 1];
    assert forall v | v in voltages :: v <= last;
  }

  // ---------------------------------------------------------------------------
  // The ladder
  // ---------------------------------------------------------------------------

  datatype OcStep = OcStep(index: nat, voltage: int, target: int, ratio: real)

  /** What the rungs of a climb ask for: the clock, the voltage and the ratio of each. */
  datatype Rungs = Rungs(count: Positive, clock: nat -> Option<int>, voltage: nat -> int, ratio: nat -> real) {
    /** Later rungs ask for no less, and only the last one has the full ratio. */
    ghost predicate Rise() {
      && (forall i: nat, j: nat | i <= j <= count && clock(i).Some? && clock(j).Some? ::
        clock(i).value <= clock(j).value)
      && (forall i: nat, j: nat | i <= j <= count :: voltage(i) <= voltage(j))
      && (forall raw: nat :: ratio(raw) == 1.0 <==> raw == count)
    }

    /** Some rung asks for a clock that snapping refuses. */
    ghost predicate Refused(upTo: nat) {
      exists raw: nat :: 1 <= raw <= upTo && clock(raw).None?
    }
  }

  /** Rungs numbered from one, no more than were tried. */
  ghost predicate Numbered(steps: seq<OcStep>, tried: nat) {
    |steps| <= tried && forall k | 0 <= k < |steps| :: steps[k].index == k + 1
  }

  /** At a fixed voltage every rung has a higher clock than the one before. */
  ghost predicate ClimbsClocks(steps: seq<OcStep>, voltage: int, low: int, high: int) {
    && (forall k | 0 <= k < |steps| :: steps[k].voltage == voltage && low < steps[k].target <= high)
    && (forall j, k | 0 <= j < k < |steps| :: steps[j].target < steps[k].target)
  }

  /** Rising, every rung has a higher voltage above the start, and no lower clock. */
  ghost predicate ClimbsVoltages(steps: seq<OcStep>, start: int) {
    && (forall k | 0 <= k < |steps| :: steps[k].voltage > start)
    && (forall j, k | 0 <= j < k < |steps| :: steps[j].voltage < steps[k].voltage && steps[j].target <= steps[k].target)
  }

  /** Every step is one of the rungs. */
  ghost predicate AreRungs(r: Rungs, steps: seq<OcStep>) {
    forall s | s in steps :: IsRung(r, s)
  }

  ghost predicate IsRung(r: Rungs, s: OcStep) {
    exists raw: nat ::
      1 <= raw <= r.count && Some(s.target) == r.clock(raw) && s.voltage == r.voltage(raw) && s.ratio == r.ratio(raw)
  }

  function Targets(steps: seq<OcStep>): set<int> {
    set s | s in steps :: s.target
  }

  function Voltages(steps: seq<OcStep>): set<int> {
    set s | s in steps :: s.voltage
  }

  lemma SetsOneMore(steps: seq<OcStep>, s: OcStep)
    ensures Targets(steps + [s]) == Targets(steps) + {s.target}
    ensures Voltages(steps + [s]) == Voltages(steps) + {s.voltage}
  {
    assert forall t :: t in steps + [s] <==> t in steps || t == s;
  }

  lemma SameVoltages(a: seq<OcStep>, b: seq<OcStep>)
    requires |a| == |b| && forall k | 0 <= k < |a| :: a[k].voltage == b[k].voltage
    ensures Voltages(a) == Voltages(b)
  {
    assert forall k | 0 <= k < |a| :: a[k] in a && b[k] in b;
  }

  lemma ClimbsClocksOneMore(steps: seq<OcStep>, voltage: int, low: int, high: int, s: OcStep)
    requires ClimbsClocks(steps, voltage, low, high) && s.voltage == voltage && low < s.target <= high
    requires steps != [] ==> steps[|steps| - 1].target < s.target
    ensures ClimbsClocks(steps + [s], voltage, low, high)
  {
    assert forall k | 0 <= k < |steps| :: steps[k].target <= steps[|steps| - 1].target;
  }

  lemma ClimbsVoltagesOneMore(steps: seq<OcStep>, start: int, s: OcStep)
    requires ClimbsVoltages(steps, start) && s.voltage > start
    requires steps != [] ==> steps[|steps| - 1].voltage < s.voltage && steps[|steps| - 1].target <= s.target
    ensures ClimbsVoltages(steps + [s], start)
  {
    assert forall k | 0 <= k < |steps| :: steps[k].voltage <= steps[|steps| - 1].voltage
                                          && steps[k].target <= steps[|steps| - 1].target;
  }

  /** The first `done` rungs at a fixed voltage: each clock above the start once. */
  ghost predicate ClocksSoFar(r: Rungs, steps: seq<OcStep>, seen: set<int>, voltage: int, low: int, high: int,
                              done: nat)
  {
    && Numbered(steps, done) && ClimbsClocks(steps, voltage, low, high)
    && (forall k: nat | 1 <= k <= done && r.clock(k).Some? && r.clock(k).value > low :: r.clock(k).value in seen)
    && (if steps == [] then done == 0 || (r.clock(done).Some? && r.clock(done).value <= low)
        else done > 0 && Some(steps[|steps| - 1].target) == r.clock(done))
  }

  lemma ClockAdded(r: Rungs, steps: seq<OcStep>, voltage: int, low: int, high: int, done: nat, s: OcStep)
    requires r.Rise() && r.clock(r.count) == Some(high) && r.voltage(done + 1) == voltage && done < r.count
    requires ClocksSoFar(r, steps, Targets(steps), voltage, low, high, done)
    requires r.clock(done + 1) == Some(s.target) && low < s.target && s.target !in Targets(steps)
    requires s.index == |steps| + 1 && s.voltage == voltage && s.ratio == r.ratio(done + 1)
    ensures ClocksSoFar(r, steps + [s], Targets(steps + [s]), voltage, low, high, done + 1)
    ensures Targets(steps + [s]) == Targets(steps) + {s.target}
    ensures AreRungs(r, steps) ==> AreRungs(r, steps + [s])
  {
    RungsOneMore(r, steps, s, done + 1);
    SetsOneMore(steps, s);
    assert s.target <= high;
    assert steps != [] ==> steps[|steps| - 1] in steps && r.clock(done).value <= s.target;
    ClimbsClocksOneMore(steps, voltage, low, high, s);
  }

  /** One rung at the voltage already found. */
  method TryClock(r: Rungs, steps: seq<OcStep>, seen: set<int>, voltage: int, low: int, ghost high: int, raw: Positive)
    returns (steps': seq<OcStep>, seen': set<int>)
    requires r.Rise() && raw <= r.count && r.clock(r.count) == Some(high) && r.clock(raw).Some? &&
      r.voltage(raw) == voltage
    requires ClocksSoFar(r, steps, seen, voltage, low, high, raw - 1) && seen == Targets(steps)
    ensures ClocksSoFar(r, steps', seen', voltage, low, high, raw) && seen' == Targets(steps')
    ensures AreRungs(r, steps) ==> AreRungs(r, steps')
  {
    steps', seen' := steps, seen;
    var target := r.clock(raw).value;
    if target <= low || target in seen {
      ClockSkipped(r, steps, voltage, low, high, raw - 1);
      return;
    }
    var s := OcStep(|steps| + 1, voltage, target, r.ratio(raw));
    ClockAdded(r, steps, voltage, low, high, raw - 1, s);
    seen' := seen + {target};
    steps' := steps + [s];
  }

  lemma ClockSkipped(r: Rungs, steps: seq<OcStep>, voltage: int, low: int, high: int, done: nat)
    requires r.Rise() && done < r.count && ClocksSoFar(r, steps, Targets(steps), voltage, low, high, done)
    requires r.clock(done + 1).Some? && (r.clock(done + 1).value <= low || r.clock(done + 1).value in Targets(steps))
    ensures ClocksSoFar(r, steps, Targets(steps), voltage, low, high, done + 1)
  {
    if steps != [] {
      assert r.clock(done).value <= r.clock(done + 1).value && steps[|steps| - 1].target > low;
      assert forall k | 0 <= k < |steps| :: steps[k].target <= steps[|steps| - 1].target;
      assert r.clock(done + 1).value in Targets(steps);
      assert r.clock(done + 1).value == r.clock(done).value;
    }
  }

  /** The climb at the voltage already found: each new clock once. */
  method FixedVoltageLadder(r: Rungs, startVoltage: int, startClock: int, ghost endClock: int)
    returns (ladder: Option<seq<OcStep>>)
    requires r.Rise() && r.clock(r.count) == Some(endClock)
    requires forall raw: nat :: r.voltage(raw) == startVoltage
    ensures ladder.None? <==> r.Refused(r.count)
    ensures ladder.Some? ==>
      && AreRungs(r, ladder.value)
      && ClocksSoFar(r, ladder.value, Targets(ladder.value), startVoltage, startClock, endClock, r.count)
  {
    var seen: set<int> := {};
    var steps: seq<OcStep> := [];
    for raw := 1 to r.count + 1
      invariant !r.Refused(raw - 1) && AreRungs(r, steps) && seen == Targets(steps)
      invariant ClocksSoFar(r, steps, seen, startVoltage, startClock, endClock, raw - 1)
    {
      if r.clock(raw).None? {
        return None;
      }
      steps, seen := TryClock(r, steps, seen, startVoltage, startClock, endClock, raw);
    }
    return Some(steps);
  }

  /** The first `done` rungs of a rising climb: each voltage above the start once. */
  ghost predicate VoltagesSoFar(r: Rungs, steps: seq<OcStep>, seen: set<int>, start: int, done: nat) {
    && Numbered(steps, done) && ClimbsVoltages(steps, start)
    && (forall k: nat | 1 <= k <= done && r.voltage(k) > start :: r.voltage(k) in seen)
    && (if steps == [] then done == 0 || r.voltage(done) <= start
        else done > 0 && steps[|steps| - 1].voltage == r.voltage(done) && r.clock(done).Some?
             && steps[|steps| - 1].target <= r.clock(done).value
             && (done == r.count ==> Some(steps[|steps| - 1].target) == r.clock(r.count)))
  }

  lemma VoltageAdded(r: Rungs, steps: seq<OcStep>, start: int, done: nat, s: OcStep)
    requires r.Rise() && done < r.count && VoltagesSoFar(r, steps, Voltages(steps), start, done)
    requires r.clock(done + 1) == Some(s.target) && start < s.voltage && s.voltage !in Voltages(steps)
    requires s.index == |steps| + 1 && s.voltage == r.voltage(done + 1) && s.ratio == r.ratio(done + 1)
    ensures VoltagesSoFar(r, steps + [s], Voltages(steps + [s]), start, done + 1)
    ensures Voltages(steps + [s]) == Voltages(steps) + {s.voltage}
    ensures AreRungs(r, steps) ==> AreRungs(r, steps + [s])
  {
    RungsOneMore(r, steps, s, done + 1);
    SetsOneMore(steps, s);
    if steps != [] {
      assert steps[|steps| - 1] in steps;
      assert r.voltage(done) <= r.voltage(done + 1) && r.clock(done).value <= r.clock(done + 1).value;
    }
    ClimbsVoltagesOneMore(steps, start, s);
  }

  lemma RungsOneMore(r: Rungs, steps: seq<OcStep>, s: OcStep, raw: Positive)
    requires raw <= r.count && Some(s.target) == r.clock(raw) && s.voltage == r.voltage(raw) && s.ratio == r.ratio(raw)
    ensures AreRungs(r, steps) ==> AreRungs(r, steps + [s])
  {
    assert IsRung(r, s);
  }

  lemma LastReplaced(r: Rungs, steps: seq<OcStep>, start: int, s: OcStep)
    requires r.Rise() && VoltagesSoFar(r, steps, Voltages(steps), start, r.count - 1) && steps != []
    requires r.clock(r.count) == Some(s.target) && steps[|steps| - 1].voltage == r.voltage(r.count)
    requires s.index == |steps| && s.voltage == r.voltage(r.count) && s.ratio == r.ratio(r.count)
    ensures VoltagesSoFar(r, steps[..|steps| - 1] + [s], Voltages(steps), start, r.count)
    ensures AreRungs(r, steps) ==> AreRungs(r, steps[..|steps| - 1] + [s])
    ensures Voltages(steps[..|steps| - 1] + [s]) == Voltages(steps)
  {
    assert IsRung(r, s);
    assert r.clock(r.count - 1).value <= r.clock(r.count).value;
    SameVoltages(steps, steps[..|steps| - 1] + [s]);
  }

  /** A rung with the voltage of the one before, or none above the start, changes nothing. */
  lemma VoltageSkipped(r: Rungs, steps: seq<OcStep>, start: int, done: nat)
    requires r.Rise() && done < r.count && VoltagesSoFar(r, steps, Voltages(steps), start, done)
    requires r.clock(done + 1).Some? && (r.voltage(done + 1) <= start || r.voltage(done + 1) in Voltages(steps))
    requires done + 1 == r.count && steps != [] ==> steps[|steps| - 1].voltage != r.voltage(done + 1)
    ensures VoltagesSoFar(r, steps, Voltages(steps), start, done + 1)
  {
    if steps != [] {
      assert steps[|steps| - 1].voltage > start;
      assert r.voltage(done) <= r.voltage(done + 1) && r.clock(done).value <= r.clock(done + 1).value;
      assert forall k | 0 <= k < |steps| :: steps[k].voltage <= steps[|steps| - 1].voltage;
      assert r.voltage(done + 1) in Voltages(steps);
      assert r.voltage(done + 1) == r.voltage(done);
    }
  }

  /** One rung of a rising climb; the last one replaces a rung that has its voltage already. */
  method TryVoltage(r: Rungs, steps: seq<OcStep>, seen: set<int>, start: int, raw: Positive)
    returns (steps': seq<OcStep>, seen': set<int>)
    requires r.Rise() && raw <= r.count && r.clock(raw).Some?
    requires VoltagesSoFar(r, steps, seen, start, raw - 1) && seen == Voltages(steps)
    ensures VoltagesSoFar(r, steps', seen', start, raw) && seen' == Voltages(steps')
    ensures AreRungs(r, steps) ==> AreRungs(r, steps')
  {
    steps', seen' := steps, seen;
    var voltage, target := r.voltage(raw), r.clock(raw).value;
    if r.ratio(raw) == 1.0 && steps != [] && steps[|steps| - 1].voltage == voltage {
      var s := OcStep(steps[|steps| - 1].index, voltage, target, r.ratio(raw));
      LastReplaced(r, steps, start, s);
      steps' := steps[..|steps| - 1] + [s];
      return;
    }
    if voltage <= start || voltage in seen {
      VoltageSkipped(r, steps, start, raw - 1);
      return;
    }
    var s := OcStep(|steps| + 1, voltage, target, r.ratio(raw));
    VoltageAdded(r, steps, start, raw - 1, s);
    seen' := seen + {voltage};
    steps' := steps + [s];
  }

  /** The climb through the voltages: each new voltage once, and the last one at the full clock. */
  method RisingLadder(r: Rungs, startVoltage: int) returns (ladder: Option<seq<OcStep>>)
    requires r.Rise()
    ensures ladder.None? <==> r.Refused(r.count)
    ensures ladder.Some? ==>
      && AreRungs(r, ladder.value)
      && VoltagesSoFar(r, ladder.value, Voltages(ladder.value), startVoltage, r.count)
  {
    var seen: set<int> := {};
    var steps: seq<OcStep> := [];
    for raw := 1 to r.count + 1
      invariant !r.Refused(raw - 1) && AreRungs(r, steps) && seen == Voltages(steps)
      invariant VoltagesSoFar(r, steps, seen, startVoltage, raw - 1)
    {
      if r.clock(raw).None? {
        return None;
      }
      steps, seen := TryVoltage(r, steps, seen, startVoltage, raw);
    }
    return Some(steps);
  }

  /** The editable voltages a climb may use. */
  method VoltagesBetween(bins: seq<int>, low: int, high: int) returns (voltages: seq<int>)
    requires Increasing(bins)
    ensures Increasing(voltages) && forall v :: v in voltages <==> v in bins && low <= v <= high
  {
    voltages := [];
    for i := 0 to |bins|
      invariant Increasing(voltages)
      invariant forall v :: v in voltages <==> v in bins[..i] && low <= v <= high
    {
      assert bins[..i + 1] == bins[..i] + [bins[i]];
      assert forall k | 0 <= k < |voltages| :: voltages[k] in voltages;
      if low <= bins[i] <= high {
        voltages := voltages + [bins[i]];
      }
    }
    assert bins[..|bins|] == bins;
  }

  /** A climb that has somewhere to go: a higher clock at the same voltage, or a higher voltage
      among the editable ones. */
  ghost predicate HasRungs(c: Climb, bins: seq<int>) {
    && c.Valid()
    && if c.startVoltage == c.endVoltage then c.startClock < c.endClock
       else exists v :: v in bins && c.startVoltage < v <= c.endVoltage
  }

  /** The last rung of a ladder stands at the end: its clock, and the highest voltage allowed. */
  ghost predicate EndsAtTop(c: Climb, bins: seq<int>, steps: seq<OcStep>)
    requires steps != []
  {
    && steps[|steps| - 1].target == c.endClock
    && (c.startVoltage < c.endVoltage ==> forall v | v in bins && v <= c.endVoltage :: v <= steps[|steps| - 1].voltage)
  }

  function RungsOf(c: Climb, voltages: seq<int>): Rungs
    requires voltages != []
  {
    Rungs(c.count, (raw: nat) => c.Clock(raw), (raw: nat) => c.Voltage(voltages, raw), (raw: nat) => c.Ratio(raw))
  }

  lemma OnlyTheLastRatioIsOne(c: Climb, raw: nat)
    ensures c.Ratio(raw) == 1.0 <==> raw == c.count
  {
    assert raw as real == c.Ratio(raw) * c.count as real;
  }

  lemma RungsRise(c: Climb, voltages: seq<int>)
    requires c.Valid() && voltages != [] && Increasing(voltages) && forall v | v in voltages :: v <= c.endVoltage
    ensures RungsOf(c, voltages).Rise()
    ensures c.Clock(c.count) == Some(c.endClock)
    ensures forall raw: nat | raw <= c.count && c.Clock(raw).Some? :: c.startClock <= c.Clock(raw).value <= c.endClock
    ensures c.startVoltage < c.endVoltage ==> c.Voltage(voltages, c.count) == voltages[|voltages| - 1]
  {
    forall i: nat, j: nat | i <= j <= c.count {
      ClocksRise(c, i, j);
    }
    forall i: nat, j: nat | i <= j <= c.count && c.startVoltage < c.endVoltage {
      VoltagesRise(c, voltages, i, j);
    }
    forall raw: nat {
      OnlyTheLastRatioIsOne(c, raw);
    }
    ClocksRise(c, c.count, c.count);
    if c.startVoltage < c.endVoltage {
      VoltagesRise(c, voltages, c.count, c.count);
    }
  }

  lemma RungsStayInside(c: Climb, voltages: seq<int>, steps: seq<OcStep>)
    requires c.Valid() && voltages != [] && Increasing(voltages) && forall v | v in voltages :: v <= c.endVoltage
    requires AreRungs(RungsOf(c, voltages), steps)
    ensures forall s | s in steps :: c.startClock <= s.target <= c.endClock
    ensures c.startVoltage < c.endVoltage ==> forall s | s in steps :: s.voltage in voltages
  {
    RungsRise(c, voltages);
    forall s | s in steps
      ensures c.startClock <= s.target <= c.endClock && (c.startVoltage < c.endVoltage ==> s.voltage in voltages)
    {
      assert IsRung(RungsOf(c, voltages), s);
    }
  }

  /** Only a start clock that is not positive can make a rung be refused. */
  lemma OnlyPoorClocksAreRefused(c: Climb, raw: nat)
    requires c.Valid() && 1 <= raw <= c.count && c.startClock > 0
    ensures c.Clock(raw).Some?
  {
    ClocksRise(c, raw, raw);
  }

  lemma NoneRefused(c: Climb, voltages: seq<int>)
    requires c.Valid() && voltages != [] && c.startClock > 0
    ensures !RungsOf(c, voltages).Refused(c.count)
  {
    forall raw: nat | 1 <= raw <= c.count {
      OnlyPoorClocksAreRefused(c, raw);
    }
  }

  /** Every rung of the ladder is one that was asked for, and none above the start is missing. */
  ghost predicate IsLadderOf(r: Rungs, startVoltage: int, steps: seq<OcStep>) {
    && Numbered(steps, r.count) && AreRungs(r, steps)
    && forall k: nat | 1 <= k <= r.count && r.voltage(k) > startVoltage :: r.voltage(k) in Voltages(steps)
  }

  ghost predicate HasEveryClock(r: Rungs, startClock: int, steps: seq<OcStep>) {
    forall k: nat | 1 <= k <= r.count && r.clock(k).Some? && r.clock(k).value > startClock ::
      r.clock(k).value in Targets(steps)
  }

  /** The ladder of a climb: its rungs are those asked for between the two ends, and complete. */
  ghost predicate IsClimbOf(c: Climb, bins: seq<int>, steps: seq<OcStep>) {
    if c.startVoltage == c.endVoltage then
      var r := RungsOf(c, [c.startVoltage]);
      IsLadderOf(r, c.startVoltage, steps) && HasEveryClock(r, c.startClock, steps)
    else
      exists voltages: seq<int> :: IsRange(bins, c.startVoltage, c.endVoltage, voltages)
                                   && IsLadderOf(RungsOf(c, voltages), c.startVoltage, steps)
  }

  ghost predicate IsRange(bins: seq<int>, low: int, high: int, voltages: seq<int>) {
    voltages != [] && Increasing(voltages) && forall v :: v in voltages <==> v in bins && low <= v <= high
  }

  /** The ladder when the voltage stays. */
  method ClimbAtVoltage(c: Climb) returns (ladder: Option<seq<OcStep>>)
    requires c.Valid() && c.startVoltage == c.endVoltage && c.startClock < c.endClock
    ensures c.startClock > 0 ==> ladder.Some?
    ensures ladder.Some? ==>
      && IsClimbOf(c, [], ladder.value)
      && ClimbsClocks(ladder.value, c.startVoltage, c.startClock, c.endClock)
      && ladder.value != [] && ladder.value[|ladder.value| - 1].target == c.endClock
  {
    var r := RungsOf(c, [c.startVoltage]);
    RungsRise(c, [c.startVoltage]);
    if c.startClock > 0 {
      NoneRefused(c, [c.startVoltage]);
    }
    ladder := FixedVoltageLadder(r, c.startVoltage, c.startClock, c.endClock);
  }

  /** The ladder through the editable voltages; there may be none above the start. */
  method ClimbThroughVoltages(c: Climb, bins: seq<int>) returns (ladder: Option<seq<OcStep>>, voltages: seq<int>)
    requires c.Valid() && c.startVoltage < c.endVoltage && Increasing(bins)
    ensures c.startClock > 0 ==> ladder.Some?
    ensures Increasing(voltages) && forall v :: v in voltages <==> v in bins && c.startVoltage <= v <= c.endVoltage
    ensures ladder.Some? && ladder.value != [] ==> IsClimbOf(c, bins, ladder.value)
    ensures ladder.Some? && voltages != [] ==> IsLadderOf(RungsOf(c, voltages), c.startVoltage, ladder.value)
    ensures ladder.Some? ==>
      && ClimbsVoltages(ladder.value, c.startVoltage)
      && (forall s | s in ladder.value :: s.voltage in voltages && c.startClock <= s.target <= c.endClock)
      && (ladder.value != [] <==> exists v :: v in voltages && v > c.startVoltage)
      && (ladder.value != [] ==> EndsAtTop(c, bins, ladder.value))
  {
    voltages := VoltagesBetween(bins, c.startVoltage, c.endVoltage);
    if voltages == [] {
      return Some([]), voltages;
    }
    assert voltages[|voltages| - 1] in voltages;
    assert forall v | v in voltages :: v <= voltages[|voltages| - 1];
    var r := RungsOf(c, voltages);
    assert r.Rise() && r.clock(r.count) == Some(c.endClock) && r.voltage(r.count) == voltages[|voltages| - 1] by {
      RungsRise(c, voltages);
    }
    if c.startClock > 0 {
      NoneRefused(c, voltages);
    }
    ladder := RisingLadder(r, c.startVoltage);
    if ladder.Some? {
      RungsStayInside(c, voltages, ladder.value);
      assert IsRange(bins, c.startVoltage, c.endVoltage, voltages);
    }
  }

  /** `build_auto_oc_ladder`: none when a clock is refused, which a positive start clock excludes.
      A ladder has a rung exactly when the climb has somewhere to go, and then it ends at the top. */
  method BuildAutoOcLadder(bins: seq<int>, startVoltage: int, startClock: int, endVoltage: int, endClock: int,
                           maxSteps: int, clockStep: int)
    returns (ladder: Option<seq<OcStep>>, ghost c: Climb)
    requires ValidBins(bins)
    ensures c == Climb(startVoltage, startClock, endVoltage, endClock, Larger(1, maxSteps), clockStep)
    ensures startClock > 0 ==> ladder.Some?
    ensures ladder.Some? ==>
      && Numbered(ladder.value, c.count)
      && (startVoltage == endVoltage ==> ClimbsClocks(ladder.value, startVoltage, startClock, endClock))
      && (startVoltage != endVoltage ==> ClimbsVoltages(ladder.value, startVoltage))
      && (startVoltage != endVoltage ==> forall s | s in ladder.value ::
            s.voltage in bins && s.voltage <= endVoltage && startClock <= s.target <= endClock)
      && (ladder.value != [] <==> HasRungs(c, bins))
      && (ladder.value != [] ==> IsClimbOf(c, bins, ladder.value))
      && (ladder.value != [] ==> EndsAtTop(c, bins, ladder.value))
  {
    var climb := Climb(startVoltage, startClock, endVoltage, endClock, Larger(1, maxSteps), clockStep);
    c := climb;
    if startVoltage > endVoltage || startClock > endClock {
      return Some([]), c;
    }
    if startVoltage == endVoltage && startClock == endClock {
      return Some([]), c;
    }
    if startVoltage == endVoltage {
      ladder := ClimbAtVoltage(climb);
      return;
    }
    var voltages;
    ladder, voltages := ClimbThroughVoltages(climb, bins);
  }
}

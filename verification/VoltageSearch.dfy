/** Choosing the next lower voltage to probe (auto_uv/run/lower_voltage_search.py), and the
    points earlier failures keep closed (auto_uv/persistence/unsafe_voltage_cache.py). */
module VoltageSearch {
  import opened Wrappers

  // ---------------------------------------------------------------------------
  // Voltage bins
  // ---------------------------------------------------------------------------

  /** The editable bins of a validated base curve: positive, distinct, in increasing order. */
  ghost predicate ValidBins(bins: seq<int>) {
    && (forall i | 0 <= i < |bins| :: bins[i] > 0)
    && (forall i, j | 0 <= i < j < |bins| :: bins[i] < bins[j])
  }

  /** The bins a search below `stable` may use. */
  predicate Allowed(v: int, stable: int, minSearch: Option<int>, failedFloor: Option<int>) {
    && v < stable
    && (minSearch.Some? ==> v >= minSearch.value)
    && (failedFloor.Some? ==> v > failedFloor.value)
  }

  ghost predicate Decreasing(s: seq<int>) {
    forall i, j | 0 <= i < j < |s| :: s[i] > s[j]
  }

  /** `lower_editable_voltage_bins` with the failed-floor filter: highest first. */
  method LowerBins(bins: seq<int>, stable: int, minSearch: Option<int>, failedFloor: Option<int>)
    returns (lower: seq<int>)
    requires ValidBins(bins)
    ensures forall v :: v in lower <==> v in bins && Allowed(v, stable, minSearch, failedFloor)
    ensures Decreasing(lower)
  {
    lower := [];
    for i := 0 to |bins|
      invariant forall v :: v in lower <==> v in bins[..i] && Allowed(v, stable, minSearch, failedFloor)
      invariant Decreasing(lower)
    {
      assert bins[..i + 1] == bins[..i] + [bins[i]];
      assert forall k | 0 <= k < |lower| :: lower[k] in lower;
      if Allowed(bins[i], stable, minSearch, failedFloor) {
        lower := [bins[i]] + lower;
      }
    }
    assert bins[..|bins|] == bins;
  }

  /** How many bins one step takes: two or three in the upper tenth of the range, else one. */
  function StepBins(v: int, start: int, left: nat): (step: nat)
    ensures 1 <= step <= 3
  {
    var ratio := if start > 0 then v as real / start as real else 1.0;
    if ratio >= 0.9 then
      var wanted := if left < 2 then 2 else left;
      if wanted < 3 then wanted else 3
    else 1
  }

  /** In the upper tenth of a range that starts at `start`. */
  ghost predicate InUpperTenth(v: int, start: int) {
    start <= 0 || 10 * v >= 9 * start
  }

  /** Where a step lands that starts at position `from`: on the third bin in the upper tenth, or the last
      one when there are fewer; below, on the first. */
  ghost function Landing(lower: seq<int>, start: int, from: nat): (at: nat)
    requires from < |lower|
    ensures from <= at < |lower|
  {
    if !InUpperTenth(lower[from], start) then from else if from + 3 <= |lower| then from + 2 else |lower| - 1
  }

  lemma StepLands(lower: seq<int>, start: int, from: nat)
    requires from < |lower|
    ensures var step := StepBins(lower[from], start, |lower| - from);
      Landing(lower, start, from) == if from + step <= |lower| then from + step - 1 else |lower| - 1
  {
    if start > 0 {
      RatioIsUpper(lower[from], start);
    }
  }

  lemma RatioIsUpper(v: int, start: int)
    requires start > 0
    ensures v as real / start as real >= 0.9 <==> 10 * v >= 9 * start
  {
    var x, y := v as real, start as real;
    var gap := x / y - 0.9;
    assert (x / y) * y == x;
    assert gap * y == x - 0.9 * y;
    assert 10.0 * x == (10 * v) as real && 9.0 * y == (9 * start) as real;
    SignOfProduct(gap, y);
  }

  lemma SignOfProduct(a: real, b: real)
    requires b > 0.0
    ensures a > 0.0 <==> a * b > 0.0
    ensures a < 0.0 <==> a * b < 0.0
  {
    if a > 0.0 {
      assert a * b > 0.0;
    } else if a < 0.0 {
      assert a * b < 0.0;
    }
  }

  ghost predicate LandsAt(lower: seq<int>, start: int, from: nat, at: nat) {
    from < |lower| && at == Landing(lower, start, from)
  }

  /** The picks at positions `at`: each step lands where the last one let off, and the last bin is kept. */
  ghost predicate IsThinned(lower: seq<int>, start: int, selected: seq<int>, at: seq<nat>) {
    && |at| == |selected|
    && (forall k | 0 <= k < |at| :: at[k] < |lower| && selected[k] == lower[at[k]])
    && (at != [] ==> LandsAt(lower, start, 0, at[0]))
    && (forall k | 0 < k < |at| :: LandsAt(lower, start, at[k - 1] + 1, at[k]))
  }

  /** The picks go all the way down. */
  ghost predicate IsThinnedToTheLast(lower: seq<int>, start: int, selected: seq<int>, at: seq<nat>) {
    && IsThinned(lower, start, selected, at)
    && (lower == [] <==> selected == [])
    && (selected != [] ==> at[|at| - 1] == |lower| - 1)
  }

  /** `select_aggressive_voltage_bins`: a thinned descent that always keeps the last bin. */
  method SelectAggressive(lower: seq<int>, start: int) returns (selected: seq<int>)
    ensures exists at :: IsThinnedToTheLast(lower, start, selected, at)
  {
    selected := [];
    ghost var at: seq<nat> := [];
    var cursor := 0;
    while cursor < |lower|
      invariant 0 <= cursor <= |lower|
      invariant IsThinned(lower, start, selected, at)
      invariant if cursor == 0 then selected == [] else selected != [] && at[|at| - 1] == cursor - 1
    {
      StepLands(lower, start, cursor);
      var step := StepBins(lower[cursor], start, |lower| - cursor);
      var pick := if cursor + step - 1 <= |lower| - 1 then cursor + step - 1 else |lower| - 1;
      selected, at := selected + [lower[pick]], at + [pick];
      cursor := pick + 1;
    }
    assert IsThinnedToTheLast(lower, start, selected, at);
  }

  /** `v` is worth a probe after `last` was kept: far enough below it, or far from what was measured. */
  ghost predicate IsEffective(v: int, last: int, stable: int, reference: real) {
    var gap := if v as real >= reference then v as real - reference else reference - v as real;
    if InUpperTenth(v, stable) then last - v >= 15 || gap >= 20.0 else last - v >= 5 || gap >= 5.0
  }

  /** After the voltage at `from` the one at `to` is kept: what lies between was not worth a probe. */
  ghost predicate KeptNext(selected: seq<int>, stable: int, reference: real, from: nat, to: nat) {
    && from < to < |selected| && NoneEffective(selected, stable, reference, from, to)
    && (IsEffective(selected[to], selected[from], stable, reference) || to == |selected| - 1)
  }

  ghost predicate NoneEffective(selected: seq<int>, stable: int, reference: real, from: nat, to: nat)
    requires from < |selected| && to <= |selected|
  {
    forall m | from < m < to :: !IsEffective(selected[m], selected[from], stable, reference)
  }

  /** The voltages at positions `at` are kept: the first one, whatever is effective after the one kept
      before it, and the last one. */
  ghost predicate IsFiltered(selected: seq<int>, stable: int, reference: real, kept: seq<int>, at: seq<nat>) {
    && |at| == |kept| && (forall k | 0 <= k < |at| :: at[k] < |selected| && kept[k] == selected[at[k]])
    && (at == [] <==> selected == [])
    && (at != [] ==> at[0] == 0 && at[|at| - 1] == |selected| - 1)
    && (forall k | 0 < k < |at| :: KeptNext(selected, stable, reference, at[k - 1], at[k]))
  }

  /** What of the first `i` voltages was kept. */
  ghost predicate FilteredSoFar(selected: seq<int>, stable: int, reference: real, at: seq<nat>, kept: seq<int>, i: nat)
    requires i <= |selected|
  {
    && |at| == |kept| && (at == [] <==> i == 0)
    && (forall k | 0 <= k < |at| :: at[k] < i && kept[k] == selected[at[k]])
    && (at != [] ==> at[0] == 0 && NoneEffective(selected, stable, reference, at[|at| - 1], i))
    && (forall k | 0 <= k < |at| - 1 :: at[k] < at[|at| - 1])
    && (forall k | 0 < k < |at| :: KeptNext(selected, stable, reference, at[k - 1], at[k]))
  }

  lemma LastIsKept(selected: seq<int>, stable: int, reference: real, at: seq<nat>, kept: seq<int>)
    requires Decreasing(selected) && selected != []
    requires FilteredSoFar(selected, stable, reference, at, kept, |selected|)
    ensures var last := |selected| - 1;
      if selected[last] in kept then IsFiltered(selected, stable, reference, kept, at)
      else IsFiltered(selected, stable, reference, kept + [selected[last]], at + [last])
  {
    var last := |selected| - 1;
    if selected[last] in kept {
      var k :| 0 <= k < |kept| && kept[k] == selected[last];
      assert at[k] == last;
    } else {
      assert at[|at| - 1] != last;
    }
  }

  lemma FilteredOneMore(selected: seq<int>, stable: int, reference: real, at: seq<nat>, kept: seq<int>, i: nat)
    requires i < |selected| && FilteredSoFar(selected, stable, reference, at, kept, i)
    ensures if kept == [] || IsEffective(selected[i], kept[|kept| - 1], stable, reference)
            then FilteredSoFar(selected, stable, reference, at + [i], kept + [selected[i]], i + 1)
            else FilteredSoFar(selected, stable, reference, at, kept, i + 1)
  {
  }

  /** The test of one voltage. */
  method IsWorthAProbe(v: int, last: int, stable: int, reference: real) returns (worth: bool)
    ensures worth <==> IsEffective(v, last, stable, reference)
  {
    var ratio := if stable > 0 then v as real / stable as real else 1.0;
    var minDrop := if ratio >= 0.9 then 15 else 5;
    var minGap := if ratio >= 0.9 then 20.0 else 5.0;
    var gap := if v as real >= reference then v as real - reference else reference - v as real;
    if stable > 0 {
      RatioIsUpper(v, stable);
    }
    worth := last - v >= minDrop || gap >= minGap;
  }

  /** `filter_effective_voltage_candidates`.  It never drops the first voltage or the last. */
  method FilterEffective(selected: seq<int>, stable: int, reference: Option<real>) returns (kept: seq<int>)
    requires Decreasing(selected)
    ensures if reference.None? then kept == selected
            else exists at :: IsFiltered(selected, stable, reference.value, kept, at)
  {
    if reference.None? {
      return selected;
    }
    kept := [];
    ghost var at: seq<nat> := [];
    if selected == [] {
      assert IsFiltered(selected, stable, reference.value, kept, at);
      return;
    }
    var lastKept := stable;
    for i := 0 to |selected|
      invariant FilteredSoFar(selected, stable, reference.value, at, kept, i)
      invariant kept != [] ==> lastKept == kept[|kept| - 1]
    {
      var worth := IsWorthAProbe(selected[i], lastKept, stable, reference.value);
      FilteredOneMore(selected, stable, reference.value, at, kept, i);
      if kept == [] || worth {
        kept, at := kept + [selected[i]], at + [i];
        lastKept := selected[i];
      }
    }
    LastIsKept(selected, stable, reference.value, at, kept);
    if selected[|selected| - 1] !in kept {
      kept, at := kept + [selected[|selected| - 1]], at + [|selected| - 1];
    }
    assert IsFiltered(selected, stable, reference.value, kept, at);
  }

  /** The bins above `v` that a step from `stable` to `v` passes over. */
  ghost function Skipped(bins: seq<int>, v: int, stable: int, minSearch: Option<int>,
                         failedFloor: Option<int>): set<int>
  {
    set u | u in bins && u > v && Allowed(u, stable, minSearch, failedFloor)
  }

  ghost predicate NoneAllowed(bins: seq<int>, stable: int, minSearch: Option<int>, failedFloor: Option<int>) {
    forall v | v in bins :: !Allowed(v, stable, minSearch, failedFloor)
  }

  /** `top` is the nearest bin a step from `stable` could take. */
  ghost predicate IsNearest(bins: seq<int>, stable: int, minSearch: Option<int>, failedFloor: Option<int>, top: int) {
    && top in bins && Allowed(top, stable, minSearch, failedFloor)
    && Skipped(bins, top, stable, minSearch, failedFloor) == {}
  }

  /** One step down, to an allowed bin.  When the nearest one is in the upper tenth of the range, two
      allowed bins are passed over, or as many as leave one; below, none. */
  ghost predicate StepsDown(bins: seq<int>, start: int, stable: int, minSearch: Option<int>, failedFloor: Option<int>,
                            v: int)
  {
    && v in bins && Allowed(v, stable, minSearch, failedFloor)
    && exists top :: IsNearest(bins, stable, minSearch, failedFloor, top) &&
         var skipped := |Skipped(bins, v, stable, minSearch, failedFloor)|;
         if InUpperTenth(top, start) then
           skipped <= 2 && (skipped < 2 ==> forall u | u in bins && Allowed(u, stable, minSearch, failedFloor) ::
             u >= v)
         else skipped == 0
  }

  /** `select_next_lower_voltage`: one step down, whenever there is a bin to step to. */
  method SelectNextLowerVoltage(bins: seq<int>, start: int, stable: int, reference: Option<real>,
                                minSearch: Option<int>, failedFloor: Option<int>) returns (next: Option<int>)
    requires ValidBins(bins)
    ensures next.None? <==> NoneAllowed(bins, stable, minSearch, failedFloor)
    ensures next.Some? ==> StepsDown(bins, start, stable, minSearch, failedFloor, next.value)
  {
    var lower := LowerBins(bins, stable, minSearch, failedFloor);
    if lower == [] {
      return None;
    }
    assert lower[0] in lower;
    var selected := SelectAggressive(lower, start);
    ghost var picks :| IsThinnedToTheLast(lower, start, selected, picks);
    PicksDecrease(lower, start, selected, picks);
    var kept := FilterEffective(selected, stable, reference);
    next := Some(kept[0]);
    assert LandsAt(lower, start, 0, picks[0]) && kept[0] == selected[0];
    LandingStepsDown(bins, lower, start, stable, minSearch, failedFloor);
  }

  lemma PicksDecrease(lower: seq<int>, start: int, selected: seq<int>, at: seq<nat>)
    requires Decreasing(lower) && IsThinned(lower, start, selected, at)
    ensures Decreasing(selected)
  {
    forall i, j | 0 <= i < j < |selected| ensures selected[i] > selected[j] {
      PicksRise(lower, start, selected, at, i, j);
    }
  }

  lemma {:induction false} PicksRise(lower: seq<int>, start: int, selected: seq<int>, at: seq<nat>, i: nat, j: nat)
    requires IsThinned(lower, start, selected, at) && i < j < |at|
    ensures at[i] < at[j]
    decreases j
  {
    assert at[j - 1] + 1 <= at[j];
    if i < j - 1 {
      PicksRise(lower, start, selected, at, i, j - 1);
    }
  }

  lemma LandingStepsDown(bins: seq<int>, lower: seq<int>, start: int, stable: int, minSearch: Option<int>,
                         failedFloor: Option<int>)
    requires lower != [] && Decreasing(lower)
    requires forall v :: v in lower <==> v in bins && Allowed(v, stable, minSearch, failedFloor)
    ensures StepsDown(bins, start, stable, minSearch, failedFloor, lower[Landing(lower, start, 0)])
  {
    var pick := Landing(lower, start, 0);
    assert lower[0] in lower && lower[pick] in lower;
    SkippedArePicked(bins, lower, 0, stable, minSearch, failedFloor);
    assert IsNearest(bins, stable, minSearch, failedFloor, lower[0]);
    SkippedArePicked(bins, lower, pick, stable, minSearch, failedFloor);
    if pick == |lower| - 1 {
      forall u | u in bins && Allowed(u, stable, minSearch, failedFloor) ensures u >= lower[pick] {
        assert u in lower;
      }
    }
  }

  lemma SkippedArePicked(bins: seq<int>, lower: seq<int>, pick: nat, stable: int, minSearch: Option<int>,
                         failedFloor: Option<int>)
    requires pick < |lower| && pick <= 2 && Decreasing(lower)
    requires forall v :: v in lower <==> v in bins && Allowed(v, stable, minSearch, failedFloor)
    ensures |Skipped(bins, lower[pick], stable, minSearch, failedFloor)| == pick
  {
    var skipped := Skipped(bins, lower[pick], stable, minSearch, failedFloor);
    assert forall i | 0 <= i < |lower| :: lower[i] in lower;
    forall u | u in skipped ensures u in lower[..pick] {
      assert u in lower;
    }
    if pick == 0 {
      assert skipped == {};
    } else if pick == 1 {
      assert skipped == {lower[0]};
    } else {
      assert skipped == {lower[0], lower[1]};
    }
  }

  // ---------------------------------------------------------------------------
  // Unsafe points
  // ---------------------------------------------------------------------------

  datatype Tier = Efficiency | Balanced | Performance

  /** `positive_int`, of a value that is a number or missing. */
  function PositiveOrNone(value: Option<int>): Option<int> {
    if value.Some? && value.value > 0 then value else None
  }

  /** The lowest of the positive numbers in a list. */
  function LowestPositive(values: seq<int>): (low: Option<int>)
    ensures low.Some? ==> low.value > 0 && low.value in values
    ensures forall v | v in values && v > 0 :: low.Some? && low.value <= v
  {
    if values == [] then None
    else
      var rest, v := LowestPositive(values[1..]), values[0];
      assert values == [v] + values[1..];
      if v > 0 && (rest.None? || v < rest.value) then Some(v) else rest
  }

  /** A recorded failure.  `clock` is missing in entries from before clocks were recorded; `band` lists
      the clocks the failure holds for, when there are several; `tier` is missing when it holds for
      all; `controlled` marks failures that say nothing about the voltage. */
  datatype UnsafeEntry = UnsafeEntry(voltage: Option<int>, clock: Option<int>, band: Option<seq<int>>,
                                     tier: Option<Tier>, controlled: bool)
  {
    /** `unsafe_entry_blocks_future_search` */
    predicate AppliesTo(mode: Tier) {
      !controlled && (tier.None? || tier.value == mode)
    }

    /** `unsafe_entry_clock_floor_mhz` */
    function ClockFloor(): int {
      var low := if band.Some? then LowestPositive(band.value) else None;
      if low.Some? then low.value else if clock.Some? && clock.value > 0 then clock.value else 0
    }

    /** `unsafe_entry_blocks_voltage_candidate` */
    predicate Blocks(mode: Tier, v: int, clock_: int) {
      && AppliesTo(mode)
      && PositiveOrNone(voltage).Some? && v <= voltage.value
      && (PositiveOrNone(clock).None? || clock_ >= ClockFloor())
    }
  }

  ghost predicate HoldsFor(e: UnsafeEntry, mode: Tier) {
    !e.controlled && (e.tier.None? || e.tier.value == mode)
  }

  /** The entry says that voltage `v` fails at the clock: at its own, at each of its band, or at any. */
  ghost predicate Records(e: UnsafeEntry, v: int, clock: int) {
    && e.voltage == Some(v) && v > 0
    && if e.clock.None? || e.clock.value <= 0 then true
       else if e.band.Some? && exists b :: b in e.band.value && b > 0 then clock in e.band.value && clock > 0
       else clock == e.clock.value
  }

  /** An entry closes exactly what is no higher in voltage and no lower in clock than a point it records. */
  lemma EntryCloses(e: UnsafeEntry, mode: Tier, v: int, clock: int)
    ensures e.Blocks(mode, v, clock)
       <==> HoldsFor(e, mode) && exists v', clock' :: Records(e, v', clock') && v <= v' && clock >= clock'
  {
    if e.Blocks(mode, v, clock) {
      assert Records(e, e.voltage.value, if e.clock.None? || e.clock.value <= 0 then clock else e.ClockFloor());
    }
  }

  /** `unsafe_voltage_block_reason` is not empty. */
  predicate Blocked(entries: seq<UnsafeEntry>, mode: Tier, v: int, clock: int) {
    exists i | 0 <= i < |entries| :: entries[i].Blocks(mode, v, clock)
  }

  /** What is closed stays closed when failures are added. */
  lemma BlockedIsMonotone(entries: seq<UnsafeEntry>, more: seq<UnsafeEntry>, mode: Tier, v: int, clock: int)
    requires Blocked(entries, mode, v, clock)
    ensures Blocked(entries + more, mode, v, clock)
    ensures forall v', clock' | v' <= v && clock' >= clock :: Blocked(entries, mode, v', clock')
  {
    var i :| 0 <= i < |entries| && entries[i].Blocks(mode, v, clock);
    assert (entries + more)[i].Blocks(mode, v, clock);
    forall v', clock' | v' <= v && clock' >= clock ensures Blocked(entries, mode, v', clock') {
      assert entries[i].Blocks(mode, v', clock');
    }
  }

  /** An old entry without a clock closes its voltage, and everything below it, at every clock. */
  predicate ClosesVoltage(e: UnsafeEntry, mode: Tier, start: int) {
    e.AppliesTo(mode) && PositiveOrNone(e.voltage).Some? && PositiveOrNone(e.clock).None? && e.band.None?
    && e.voltage.value < start
  }

  /** These are the entries without a band that close a voltage below the start at every clock. */
  lemma ClosesVoltageIff(e: UnsafeEntry, mode: Tier, start: int)
    ensures ClosesVoltage(e, mode, start)
       <==> e.voltage.Some? && e.voltage.value < start && e.band.None?
            && forall clock :: e.Blocks(mode, e.voltage.value, clock)
  {
    if e.clock.Some? && e.clock.value > 0 && e.band.None? && e.voltage.Some? {
      assert !e.Blocks(mode, e.voltage.value, e.clock.value - 1);
    }
    if e.voltage.Some? && forall clock :: e.Blocks(mode, e.voltage.value, clock) {
      assert e.Blocks(mode, e.voltage.value, 0);
    }
  }

  /** `floor` is the highest voltage that is closed at every clock. */
  ghost predicate IsClosedFloor(start: int, entries: seq<UnsafeEntry>, mode: Tier, floor: Option<int>) {
    && (floor.Some? ==> exists i | 0 <= i < |entries| ::
          ClosesVoltage(entries[i], mode, start) && entries[i].voltage == floor)
    && (forall i | 0 <= i < |entries| && ClosesVoltage(entries[i], mode, start) ::
          floor.Some? && entries[i].voltage.value <= floor.value)
  }

  /** `minSearch` is the next bin above the floor. */
  ghost predicate IsNextAbove(bins: seq<int>, floor: Option<int>, minSearch: Option<int>) {
    && (minSearch.Some? ==>
          && floor.Some? && minSearch.value in bins && minSearch.value > floor.value
          && forall v | v in bins && v > floor.value :: v >= minSearch.value)
    && (floor.Some? && minSearch.None? ==> forall v | v in bins :: v <= floor.value)
  }

  /** `unsafe_min_search_voltage`: the highest such voltage, and the next bin above it. */
  method UnsafeMinSearch(bins: seq<int>, start: int, entries: seq<UnsafeEntry>, mode: Tier)
    returns (floor: Option<int>, minSearch: Option<int>)
    requires ValidBins(bins)
    ensures IsClosedFloor(start, entries, mode, floor) && IsNextAbove(bins, floor, minSearch)
  {
    floor, minSearch := None, None;
    for i := 0 to |entries|
      invariant floor.Some? ==> exists m | 0 <= m < i ::
        ClosesVoltage(entries[m], mode, start) && entries[m].voltage == floor
      invariant forall m | 0 <= m < i && ClosesVoltage(entries[m], mode, start) ::
        floor.Some? && entries[m].voltage.value <= floor.value
    {
      var e := entries[i];
      if ClosesVoltage(e, mode, start) && (floor.None? || e.voltage.value > floor.value) {
        floor := e.voltage;
      }
    }
    if floor.None? {
      return;
    }
    ghost var at := 0;
    for i := 0 to |bins|
      invariant minSearch.Some? ==> at < i && minSearch.value == bins[at] > floor.value
      invariant minSearch.None? ==> at == 0
      invariant forall m | 0 <= m < i && bins[m] > floor.value :: minSearch.Some? && m >= at
    {
      if minSearch.None? && bins[i] > floor.value {
        minSearch := Some(bins[i]);
        at := i;
      }
    }
  }
}

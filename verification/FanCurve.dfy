/** Validation of the fan curve (runtime/runtime_spec.py): a finite list of checks that makes the
    interpolated curve safe at every temperature. */
module FanCurve {

  datatype Point = Point(temp: real, speed: real)

  // The thresholds of `AutoUvFanTuning`.
  const MAX_CURVE_POINTS := 10
  const ZERO_RPM_UNTIL_TEMP := 45.0
  const MINIMUM_ACTIVE_TEMP := 60.0
  const MINIMUM_ACTIVE_SPEED := 30.0
  const MAX_LOAD_TEMP := 80.0
  const EMERGENCY_TEMP := 85.0
  const EMERGENCY_MIN_SPEED := 75.0
  const FULL_SPEED_TEMP := 90.0
  const FULL_SPEED := 100.0
  const TOLERANCE := 0.01

  /** A temperature from which on the fan must reach a speed. */
  datatype Demand = Demand(temp: real, speed: real)

  const DEMANDS := [
    Demand(MINIMUM_ACTIVE_TEMP, MINIMUM_ACTIVE_SPEED),
    Demand(MAX_LOAD_TEMP, MINIMUM_ACTIVE_SPEED),
    Demand(EMERGENCY_TEMP, EMERGENCY_MIN_SPEED),
    Demand(FULL_SPEED_TEMP, FULL_SPEED)
  ]

  // ---------------------------------------------------------------------------
  // Interpolation
  // ---------------------------------------------------------------------------

  function Between(l: Point, r: Point, temp: real): real
    requires l.temp < r.temp
  {
    var position := (temp - l.temp) / (r.temp - l.temp);
    l.speed + (r.speed - l.speed) * position
  }

  ghost predicate Rising(points: seq<Point>) {
    forall i, j | 0 <= i < j < |points| :: points[i].temp < points[j].temp && points[i].speed <= points[j].speed
  }

  /** `_fan_speed_for_temp` */
  function FanSpeed(temp: real, points: seq<Point>): real
    requires points != [] && Rising(points)
  {
    if temp <= points[0].temp || |points| == 1 then points[0].speed
    else if temp <= points[1].temp then Between(points[0], points[1], temp)
    else FanSpeed(temp, points[1..])
  }

  lemma BetweenRises(l: Point, r: Point, t: real, u: real)
    requires l.temp < r.temp && l.speed <= r.speed && l.temp <= t <= u <= r.temp
    ensures l.speed <= Between(l, r, t) <= Between(l, r, u) <= r.speed
  {
    var width, rise := r.temp - l.temp, r.speed - l.speed;
    var p, q := (t - l.temp) / width, (u - l.temp) / width;
    Quotients(0.0, t - l.temp, width);
    Quotients(t - l.temp, u - l.temp, width);
    Quotients(u - l.temp, width, width);
    assert 0.0 / width == 0.0 && width / width == 1.0;
    assert 0.0 <= p <= q <= 1.0;
    Products(rise, 0.0, p);
    Products(rise, p, q);
    Products(rise, q, 1.0);
    assert Between(l, r, t) == l.speed + rise * p && Between(l, r, u) == l.speed + rise * q;
  }

  lemma Quotients(a: real, b: real, d: real)
    requires a <= b && d > 0.0
    ensures a / d <= b / d
  {
  }

  lemma Products(k: real, a: real, b: real)
    requires k >= 0.0 && a <= b
    ensures k * a <= k * b
  {
  }

  lemma {:induction false} SpeedIsBounded(temp: real, points: seq<Point>)
    requires points != [] && Rising(points)
    ensures points[0].speed <= FanSpeed(temp, points) <= points[|points| - 1].speed
  {
    if temp > points[0].temp && |points| > 1 {
      if temp <= points[1].temp {
        BetweenRises(points[0], points[1], temp, temp);
        assert points[1].speed <= points[|points| - 1].speed;
      } else {
        SpeedIsBounded(temp, points[1..]);
      }
    }
  }

  /** A hotter card never gets a slower fan. */
  lemma {:induction false} SpeedRises(t: real, u: real, points: seq<Point>)
    requires points != [] && Rising(points) && t <= u
    ensures FanSpeed(t, points) <= FanSpeed(u, points)
  {
    SpeedIsBounded(u, points);
    if t > points[0].temp && |points| > 1 {
      if u <= points[1].temp {
        BetweenRises(points[0], points[1], t, u);
      } else if t <= points[1].temp {
        BetweenRises(points[0], points[1], t, points[1].temp);
        SpeedIsBounded(u, points[1..]);
      } else {
        SpeedRises(t, u, points[1..]);
      }
    }
  }

  lemma {:induction false} SpeedAtPoint(points: seq<Point>, i: nat)
    requires Rising(points) && i < |points|
    ensures FanSpeed(points[i].temp, points) == points[i].speed
  {
    if i > 0 {
      assert points[i].temp == points[1..][i - 1].temp;
      if i == 1 {
        BetweenIsStraight(points[0], points[1], points[1].temp);
      } else {
        SpeedAtPoint(points[1..], i - 1);
      }
    }
  }

  lemma BetweenIsStraight(l: Point, r: Point, t: real)
    requires l.temp < r.temp
    ensures (Between(l, r, t) - l.speed) * (r.temp - l.temp) == (r.speed - l.speed) * (t - l.temp)
    ensures t == r.temp ==> Between(l, r, t) == r.speed
  {
    var width, rise, p := r.temp - l.temp, r.speed - l.speed, (t - l.temp) / (r.temp - l.temp);
    assert p * width == t - l.temp;
    assert (rise * p) * width == rise * (p * width);
  }

  /** The speeds form the curve through the points: a straight line from each point to the next, and
      level before the first and after the last. */
  lemma {:induction false} SpeedIsInterpolated(points: seq<Point>, i: nat, t: real)
    requires Rising(points) && i < |points|
    ensures FanSpeed(points[i].temp, points) == points[i].speed
    ensures i + 1 < |points| && points[i].temp <= t <= points[i + 1].temp ==>
      (FanSpeed(t, points) - points[i].speed) * (points[i + 1].temp - points[i].temp)
      == (points[i + 1].speed - points[i].speed) * (t - points[i].temp)
    ensures t <= points[0].temp ==> FanSpeed(t, points) == points[0].speed
    ensures t >= points[|points| - 1].temp ==> FanSpeed(t, points) == points[|points| - 1].speed
  {
    SpeedAtPoint(points, i);
    SpeedAtPoint(points, |points| - 1);
    if t >= points[|points| - 1].temp {
      SpeedPastTheEnd(points, t);
    }
    if i + 1 < |points| && points[i].temp <= t <= points[i + 1].temp {
      SpeedOnSegment(points, i, t);
    }
  }

  lemma {:induction false} SpeedPastTheEnd(points: seq<Point>, t: real)
    requires points != [] && Rising(points) && t >= points[|points| - 1].temp
    ensures FanSpeed(t, points) == points[|points| - 1].speed
  {
    if t == points[|points| - 1].temp {
      SpeedAtPoint(points, |points| - 1);
    } else if |points| > 1 {
      assert points[1].temp <= points[|points| - 1].temp;
      SpeedPastTheEnd(points[1..], t);
    }
  }

  lemma {:induction false} SpeedOnSegment(points: seq<Point>, i: nat, t: real)
    requires Rising(points) && i + 1 < |points| && points[i].temp <= t <= points[i + 1].temp
    ensures (FanSpeed(t, points) - points[i].speed) * (points[i + 1].temp - points[i].temp)
         == (points[i + 1].speed - points[i].speed) * (t - points[i].temp)
  {
    if t == points[i].temp {
      SpeedAtPoint(points, i);
    } else if i == 0 {
      BetweenIsStraight(points[0], points[1], t);
    } else {
      assert points[0].temp < points[1].temp <= points[i].temp < t;
      SpeedOnSegment(points[1..], i - 1, t);
    }
  }

  // ---------------------------------------------------------------------------
  // Validation
  // ---------------------------------------------------------------------------

  datatype Verdict = Accepted | TooFewPoints | TooManyPoints | NotIncreasing | OutOfRange | Decreasing
                   | SpinsWhenCold | TooSlow(demand: Demand)

  ghost predicate InRange(points: seq<Point>) {
    forall i | 0 <= i < |points| :: 0.0 <= points[i].speed <= 100.0
  }

  /** At every temperature the fan speed is between 0 and 100 and rises with the temperature; the
      fan stands still up to the zero-RPM temperature, and meets every demand from its temperature
      on, within the tolerance. */
  ghost predicate SafeEverywhere(points: seq<Point>)
    requires points != [] && Rising(points)
  {
    && (forall t :: 0.0 <= FanSpeed(t, points) <= 100.0)
    && (forall t, u | t <= u :: FanSpeed(t, points) <= FanSpeed(u, points))
    && (forall t | t <= ZERO_RPM_UNTIL_TEMP :: FanSpeed(t, points) <= TOLERANCE)
    && (forall i | 0 <= i < |DEMANDS| :: MetFrom(points, DEMANDS[i]))
  }

  ghost predicate MetFrom(points: seq<Point>, d: Demand)
    requires points != [] && Rising(points)
  {
    forall t | t >= d.temp :: FanSpeed(t, points) + TOLERANCE >= d.speed
  }

  /** The first loop of `_validate_fan_curve`. */
  method CheckPoints(points: seq<Point>) returns (verdict: Verdict)
    ensures verdict.Accepted? <==> Rising(points) && InRange(points)
    ensures verdict.NotIncreasing? ==> exists i :: 0 < i < |points| && points[i].temp <= points[i - 1].temp
    ensures verdict.OutOfRange? ==> !InRange(points)
    ensures verdict.Decreasing? ==> exists i :: 0 < i < |points| && points[i].speed < points[i - 1].speed
    ensures verdict.Accepted? || verdict.NotIncreasing? || verdict.OutOfRange? || verdict.Decreasing?
  {
    for i := 0 to |points|
      invariant Rising(points[..i]) && InRange(points[..i])
    {
      assert points[..i + 1] == points[..i] + [points[i]];
      assert i > 0 ==> points[..i][i - 1] == points[i - 1];
      assert forall k | 0 <= k < i :: points[..i][k] == points[k];
      if i > 0 && points[i].temp <= points[i - 1].temp {
        return NotIncreasing;
      }
      if !(0.0 <= points[i].speed <= 100.0) {
        return OutOfRange;
      }
      if i > 0 && points[i].speed < points[i - 1].speed {
        return Decreasing;
      }
    }
    assert points[..|points|] == points;
    return Accepted;
  }

  /** `_validate_fan_curve`.  A curve is accepted exactly when it has a permitted number of rising
      points and is safe at every temperature, not only at those that are looked at. */
  method ValidateFanCurve(points: seq<Point>) returns (verdict: Verdict)
    ensures verdict.Accepted? <==>
      2 <= |points| <= 10 && Rising(points) && InRange(points) && SafeInNumbers(points)
    ensures verdict.TooFewPoints? <==> |points| < 2
    ensures verdict.TooManyPoints? <==> |points| > 10
    ensures verdict.SpinsWhenCold? || verdict.TooSlow? ==> Rising(points) && InRange(points) && points != []
    ensures verdict.SpinsWhenCold? ==> FanSpeed(ZERO_RPM_UNTIL_TEMP, points) > TOLERANCE
    ensures verdict.TooSlow? ==>
      verdict.demand in DEMANDS && FanSpeed(verdict.demand.temp, points) + TOLERANCE < verdict.demand.speed
  {
    if |points| < 2 {
      return TooFewPoints;
    }
    if |points| > MAX_CURVE_POINTS {
      return TooManyPoints;
    }
    verdict := CheckPoints(points);
    if !verdict.Accepted? {
      return;
    }
    if FanSpeed(ZERO_RPM_UNTIL_TEMP, points) > TOLERANCE {
      SafetyInNumbers(points);
      return SpinsWhenCold;
    }
    for i := 0 to |DEMANDS|
      invariant forall k | 0 <= k < i :: FanSpeed(DEMANDS[k].temp, points) + TOLERANCE >= DEMANDS[k].speed
    {
      if FanSpeed(DEMANDS[i].temp, points) + TOLERANCE < DEMANDS[i].speed {
        assert !MetFrom(points, DEMANDS[i]);
        SafetyInNumbers(points);
        return TooSlow(DEMANDS[i]);
      }
    }
    ChecksMakeSafe(points);
    SafetyInNumbers(points);
  }

  /** What an accepted curve promises, in degrees and per cent. */
  ghost predicate SafeInNumbers(points: seq<Point>)
    requires points != [] && Rising(points)
  {
    && (forall t :: 0.0 <= FanSpeed(t, points) <= 100.0)
    && (forall t, u | t <= u :: FanSpeed(t, points) <= FanSpeed(u, points))
    && (forall t | t <= 45.0 :: FanSpeed(t, points) <= 0.01)
    && (forall t | t >= 60.0 :: FanSpeed(t, points) >= 29.99)
    && (forall t | t >= 85.0 :: FanSpeed(t, points) >= 74.99)
    && (forall t | t >= 90.0 :: FanSpeed(t, points) >= 99.99)
  }

  lemma SafetyInNumbers(points: seq<Point>)
    requires points != [] && Rising(points)
    ensures SafeEverywhere(points) <==> SafeInNumbers(points)
  {
    if SafeEverywhere(points) {
      assert MetFrom(points, DEMANDS[0]) && MetFrom(points, DEMANDS[2]) && MetFrom(points, DEMANDS[3]);
    }
    if SafeInNumbers(points) {
      assert MetFrom(points, DEMANDS[0]) && MetFrom(points, DEMANDS[1]);
      assert MetFrom(points, DEMANDS[2]) && MetFrom(points, DEMANDS[3]);
    }
  }

  /** Five looks at the curve tell about all temperatures. */
  lemma ChecksMakeSafe(points: seq<Point>)
    requires points != [] && Rising(points) && InRange(points)
    requires FanSpeed(ZERO_RPM_UNTIL_TEMP, points) <= TOLERANCE
    requires forall k | 0 <= k < |DEMANDS| :: FanSpeed(DEMANDS[k].temp, points) + TOLERANCE >= DEMANDS[k].speed
    ensures SafeEverywhere(points)
  {
    forall t: real ensures 0.0 <= FanSpeed(t, points) <= 100.0 {
      SpeedIsBounded(t, points);
    }
    forall t, u | t <= u ensures FanSpeed(t, points) <= FanSpeed(u, points) {
      SpeedRises(t, u, points);
    }
    forall i | 0 <= i < |DEMANDS| ensures MetFrom(points, DEMANDS[i]) {
      forall t | t >= DEMANDS[i].temp ensures FanSpeed(t, points) + TOLERANCE >= DEMANDS[i].speed {
        assert FanSpeed(DEMANDS[i].temp, points) <= FanSpeed(t, points);
      }
    }
  }
}

/** The exact distance transform behind the overlay's signed-distance-field font
    (scripts/generate_overlay_font.py).

    The one-dimensional pass is the lower envelope of parabolas: a stack `v` of
    parabola roots with the boundaries `z` between their regions.  Its specification
    is the one-line definition, the minimum over all roots.
 */
module DistanceTransform {

  /** A region boundary: NumPy's -inf and +inf around the finite crossings. */
  datatype Extended = NegInf | Finite(value: real) | PosInf {
    predicate AtMost(x: real) {
      NegInf? || (Finite? && value <= x)
    }

    predicate AtLeast(x: real) {
      PosInf? || (Finite? && x <= value)
    }

    predicate Less(other: Extended) {
      match (this, other)
      case (NegInf, NegInf) => false
      case (NegInf, _) => true
      case (Finite(a), Finite(b)) => a < b
      case (Finite(_), PosInf) => true
      case _ => false
    }
  }

  function Square(x: real): real {
    x * x
  }

  /** The parabola rooted at `p`, evaluated at `x`. */
  function Parabola(f: seq<real>, p: int, x: real): real
    requires 0 <= p < |f|
  {
    Square(x - p as real) + f[p]
  }

  /** The cost of reaching sample `q` from root `p`. */
  function CostFrom(f: seq<real>, p: int, q: int): real
    requires 0 <= p < |f|
  {
    Parabola(f, p, q as real)
  }

  function Top<T>(s: seq<T>): T
    requires |s| >= 1
  {
    s[|s| - 1]
  }

  /** Where the parabolas of `p` and `q` meet. */
  function Crossing(f: seq<real>, p: int, q: int): real
    requires 0 <= p < q < |f|
  {
    ((f[q] + (q * q) as real) - (f[p] + (p * p) as real)) / (2.0 * q as real - 2.0 * p as real)
  }

  /** `r` is the smallest cost of reaching `q` from any root. */
  ghost predicate IsLowestCost(f: seq<real>, q: int, r: real) {
    && (forall p | 0 <= p < |f| :: r <= CostFrom(f, p, q))
    && (exists p | 0 <= p < |f| :: r == CostFrom(f, p, q))
  }

  /** Root `a` is no worse at `x` than any of the first `q` roots. */
  ghost predicate Wins(f: seq<real>, a: int, q: int, x: real)
    requires 0 <= a < |f| && 0 <= q <= |f|
  {
    forall p | 0 <= p < q :: Parabola(f, a, x) <= Parabola(f, p, x)
  }

  /** At `x`, root `a` or root `q` is no worse than each of the first `q` roots. */
  ghost predicate WinsWith(f: seq<real>, a: int, q: int, x: real)
    requires 0 <= a < |f| && 0 <= q < |f|
  {
    forall p | 0 <= p < q ::
      Parabola(f, a, x) <= Parabola(f, p, x) || Parabola(f, q, x) <= Parabola(f, p, x)
  }

  /** The stack: roots below `q` in increasing order, boundaries in increasing order
      from -inf, and inside every closed region but the last the root on the stack wins. */
  ghost predicate Stack(f: seq<real>, v: seq<int>, z: seq<Extended>, q: int) {
    && 0 <= q <= |f|
    && |v| == |z| >= 1
    && z[0] == NegInf
    && (forall i | 1 <= i < |z| :: z[i].Finite?)
    && (forall i, j | 0 <= i < j < |z| :: z[i].Less(z[j]))
    && (forall i | 0 <= i < |v| :: 0 <= v[i] < q)
    && (forall i, j | 0 <= i < j < |v| :: v[i] < v[j])
    && (forall i, x: real | 0 <= i < |v| - 1 && z[i].AtMost(x) && z[i + 1].AtLeast(x) ::
          Wins(f, v[i], q, x))
  }

  /** The envelope of the first `q` parabolas is complete: the last region is open to +inf. */
  ghost predicate Envelope(f: seq<real>, v: seq<int>, z: seq<Extended>, q: int) {
    && Stack(f, v, z, q)
    && Top(v) == q - 1
    && forall x: real | Top(z).AtMost(x) :: Wins(f, Top(v), q, x)
  }

  /** While root `q` is being placed: in the last region the top of the stack needs its help. */
  ghost predicate Placing(f: seq<real>, v: seq<int>, z: seq<Extended>, q: int) {
    && Stack(f, v, z, q)
    && q < |f|
    && forall x: real | Top(z).AtMost(x) :: WinsWith(f, Top(v), q, x)
  }

  /** The later parabola is the lower one exactly from the crossing on. */
  lemma CrossingDecides(f: seq<real>, p: int, q: int, x: real)
    requires 0 <= p < q < |f|
    ensures Crossing(f, p, q) <= x <==> Parabola(f, q, x) <= Parabola(f, p, x)
    ensures x <= Crossing(f, p, q) <==> Parabola(f, p, x) <= Parabola(f, q, x)
  {
    var a, b := p as real, q as real;
    var span := 2.0 * b - 2.0 * a;
    var rise := (f[q] + (q * q) as real) - (f[p] + (p * p) as real);
    assert (q * q) as real == b * b && (p * p) as real == a * a;
    var s := Crossing(f, p, q);
    assert s * span == rise;
    assert Parabola(f, q, x) - Parabola(f, p, x) == rise - x * span by {
      assert Square(x - b) == x * x - 2.0 * x * b + b * b;
      assert Square(x - a) == x * x - 2.0 * x * a + a * a;
      assert x * span == 2.0 * x * b - 2.0 * x * a;
    }
    assert rise - x * span == (s - x) * span;
    SignOfProduct(s - x, span);
  }

  lemma SignOfProduct(u: real, w: real)
    requires w > 0.0
    ensures u <= 0.0 <==> u * w <= 0.0
    ensures 0.0 <= u <==> 0.0 <= u * w
  {
    if u < 0.0 {
      assert u * w < 0.0;
    } else if u > 0.0 {
      assert u * w > 0.0;
    }
  }

  /** Popping keeps the envelope: where the popped root ruled, the new one is at least as good. */
  lemma PopKeepsPlacing(f: seq<real>, v: seq<int>, z: seq<Extended>, q: int)
    requires Placing(f, v, z, q) && |v| > 1
    requires Top(z).Finite? && Crossing(f, Top(v), q) <= Top(z).value
    ensures Placing(f, v[..|v| - 1], z[..|z| - 1], q)
  {
    var k := |v| - 1;
    var v', z' := v[..k], z[..k];
    assert forall i, x: real | 0 <= i < k - 1 && z'[i].AtMost(x) && z'[i + 1].AtLeast(x) ::
        Wins(f, v'[i], q, x) by {
      assert forall i | 0 <= i < k :: v'[i] == v[i] && z'[i] == z[i];
    }
    forall x: real | Top(z').AtMost(x) ensures WinsWith(f, Top(v'), q, x) {
      if z[k].AtLeast(x) {
        assert Wins(f, v[k - 1], q, x);
      } else {
        CrossingDecides(f, v[k], q, x);
        assert WinsWith(f, Top(v), q, x);
      }
    }
  }

  /** Pushing completes the envelope for one more root. */
  lemma PushCompletesEnvelope(f: seq<real>, v: seq<int>, z: seq<Extended>, q: int)
    requires Placing(f, v, z, q)
    requires Top(z).Less(Finite(Crossing(f, Top(v), q)))
    ensures Envelope(f, v + [q], z + [Finite(Crossing(f, Top(v), q))], q + 1)
  {
    var k := |v| - 1;
    var s := Crossing(f, v[k], q);
    var v', z' := v + [q], z + [Finite(s)];
    forall i, x: real | 0 <= i < |v'| - 1 && z'[i].AtMost(x) && z'[i + 1].AtLeast(x)
      ensures Wins(f, v'[i], q + 1, x)
    {
      assert v'[i] == v[i];
      CrossingDecides(f, v[k], q, x);
      assert x <= s;
      if i < k {
        assert z'[i] == z[i] && z'[i + 1] == z[i + 1];
        assert Wins(f, v[i], q, x);
      } else {
        assert WinsWith(f, Top(v), q, x);
      }
    }
    forall x: real | Top(z').AtMost(x) ensures Wins(f, Top(v'), q + 1, x) {
      CrossingDecides(f, v[k], q, x);
      assert Top(z).AtMost(x);
      assert WinsWith(f, Top(v), q, x);
    }
  }

  /** A complete envelope is a valid start for placing the next root. */
  lemma EnvelopeStartsPlacing(f: seq<real>, v: seq<int>, z: seq<Extended>, q: int)
    requires Envelope(f, v, z, q) && q < |f|
    ensures Placing(f, v, z, q)
  {
    forall x: real | Top(z).AtMost(x) ensures WinsWith(f, Top(v), q, x) {
      assert Wins(f, Top(v), q, x);
    }
  }

  /** A root whose region holds `q` gives the lowest cost there. */
  lemma RegionGivesLowestCost(f: seq<real>, v: seq<int>, z: seq<Extended>, k: int, q: int)
    requires Envelope(f, v, z, |f|) && 0 <= k < |v|
    requires z[k].AtMost(q as real)
    requires k + 1 < |z| ==> z[k + 1].AtLeast(q as real)
    ensures IsLowestCost(f, q, CostFrom(f, v[k], q))
  {
    assert Wins(f, v[k], |f|, q as real);
  }

  /** The stack the arrays hold: `k + 1` roots, each with the boundary its region starts at. */
  ghost predicate Holds(v: array<int>, z: array<Extended>, k: int, vs: seq<int>, zs: seq<Extended>)
    reads v, z
  {
    && 0 <= k && k + 1 <= v.Length && k + 1 <= z.Length
    && vs == v[..k + 1] && zs == z[..k + 1]
  }

  /** Pop the roots that root `q` leaves without a region; `s` is where `q`'s region starts. */
  method PopDominated(f: seq<real>, v: array<int>, z: array<Extended>, start: int, q: int,
                      ghost vs: seq<int>, ghost zs: seq<Extended>)
    returns (k: int, s: real, ghost popped: nat)
    requires Holds(v, z, start, vs, zs) && Placing(f, vs, zs, q)
    ensures 0 <= k <= start && popped == start - k
    ensures Placing(f, vs[..k + 1], zs[..k + 1], q)
    ensures s == Crossing(f, vs[k], q) && zs[k].Less(Finite(s))
  {
    k := start;
    s := Crossing(f, v[k], q);
    popped := 0;
    assert vs[..k + 1] == vs && zs[..k + 1] == zs;
    while z[k].PosInf? || (z[k].Finite? && s <= z[k].value)
      invariant 0 <= k <= start && popped == start - k
      invariant Placing(f, vs[..k + 1], zs[..k + 1], q)
      invariant s == Crossing(f, vs[k], q)
      decreases k
    {
      PopKeepsPlacing(f, vs[..k + 1], zs[..k + 1], q);
      assert vs[..k + 1][..k] == vs[..k] && zs[..k + 1][..k] == zs[..k];
      k := k - 1;
      popped := popped + 1;
      if k < 0 {
        assert false;  // the source's escape: nothing is at or below -inf
      }
      s := Crossing(f, v[k], q);
    }
  }

  /** The envelope of the first `q` roots, as the arrays hold it. */
  ghost predicate Built(f: seq<real>, v: array<int>, z: array<Extended>, k: int, q: int)
    reads v, z
  {
    && v.Length == |f| && z.Length == |f| + 1
    && 0 <= k < q <= |f| && z[k + 1] == PosInf
    && Envelope(f, v[..k + 1], z[..k + 1], q)
  }

  /** One round of the first loop: some pops and one push. */
  method PlaceRoot(f: seq<real>, v: array<int>, z: array<Extended>, start: int, q: int)
    returns (k: int, ghost popped: nat)
    requires q < |f| && Built(f, v, z, start, q)
    modifies v, z
    ensures k == start - popped + 1 && Built(f, v, z, k, q + 1)
  {
    ghost var vs, zs := v[..start + 1], z[..start + 1];
    EnvelopeStartsPlacing(f, vs, zs, q);
    var below, s;
    below, s, popped := PopDominated(f, v, z, start, q, vs, zs);
    PushCompletesEnvelope(f, vs[..below + 1], zs[..below + 1], q);
    k := below + 1;
    v[k] := q;
    z[k] := Finite(s);
    z[k + 1] := PosInf;
    assert v[..k + 1] == vs[..k] + [q] && z[..k + 1] == zs[..k] + [Finite(s)];
  }

  /** `_edt_1d`, first loop: place every root on the stack.  The stack work is linear: the pops its inner
      loop makes, counted over all rounds, and the roots that remain are together the number of roots. */
  method BuildEnvelope(f: seq<real>, v: array<int>, z: array<Extended>)
    returns (top: int, ghost pops: nat)
    requires |f| >= 1 && v.Length == |f| && z.Length == |f| + 1
    modifies v, z
    ensures Built(f, v, z, top, |f|)
    ensures pops + top + 1 == |f|
  {
    v[0] := 0;
    z[0] := NegInf;
    z[1] := PosInf;
    top := 0;
    pops := 0;
    assert v[..1] == [0] && z[..1] == [NegInf];
    for q := 1 to |f|
      invariant Built(f, v, z, top, q) && pops + top + 1 == q
    {
      ghost var popped;
      top, popped := PlaceRoot(f, v, z, top, q);
      pops := pops + popped;
    }
  }

  /** `_edt_1d`.  Every entry of the result is the minimum over all roots. */
  method Edt1D(f: seq<real>) returns (d: array<real>)
    requires |f| >= 1
    ensures fresh(d) && d.Length == |f|
    ensures forall q | 0 <= q < |f| :: IsLowestCost(f, q, d[q])
  {
    var n := |f|;
    d := new real[n];
    var v := new int[n](_ => 0);
    var z := new Extended[n + 1](_ => PosInf);
    ghost var top, pops;
    top, pops := BuildEnvelope(f, v, z);
    ghost var vs, zs := v[..top + 1], z[..top + 1];
    var k := 0;
    for q := 0 to n
      invariant 0 <= k <= top
      invariant Holds(v, z, top, vs, zs) && z[top + 1] == PosInf
      invariant z[k].AtMost(q as real)
      invariant forall p | 0 <= p < q :: IsLowestCost(f, p, d[p])
    {
      while !z[k + 1].AtLeast(q as real)
        invariant 0 <= k <= top
        invariant z[k].AtMost(q as real)
        decreases top - k
      {
        assert k + 1 <= top ==> zs[k + 1] == z[k + 1];
        k := k + 1;
      }
      assert vs[k] == v[k] && zs[k] == z[k] && (k < top ==> zs[k + 1] == z[k + 1]);
      RegionGivesLowestCost(f, vs, zs, k, q);
      d[q] := Square((q - v[k]) as real) + f[v[k]];
    }
  }

  // ---------------------------------------------------------------------------
  // Two dimensions
  // ---------------------------------------------------------------------------

  /** The stand-in for "no True pixel here". */
  const LARGE := 1000000000000.0

  /** The cost at (i, j) of row `a` of the same column. */
  function ViaRow(field: array2<real>, i: int, j: int, a: int): real
    requires 0 <= a < field.Length0 && 0 <= j < field.Length1
    reads field
  {
    Square(i as real - a as real) + field[a, j]
  }

  /** The cost at (i, j) of column `b` of the same row. */
  function ViaColumn(field: array2<real>, i: int, j: int, b: int): real
    requires 0 <= i < field.Length0 && 0 <= b < field.Length1
    reads field
  {
    Square(j as real - b as real) + field[i, b]
  }

  ghost predicate LowestViaRows(field: array2<real>, i: int, j: int, r: real)
    requires 0 <= j < field.Length1
    reads field
  {
    && (forall a | 0 <= a < field.Length0 :: r <= ViaRow(field, i, j, a))
    && (exists a | 0 <= a < field.Length0 :: r == ViaRow(field, i, j, a))
  }

  ghost predicate LowestViaColumns(field: array2<real>, i: int, j: int, r: real)
    requires 0 <= i < field.Length0
    reads field
  {
    && (forall b | 0 <= b < field.Length1 :: r <= ViaColumn(field, i, j, b))
    && (exists b | 0 <= b < field.Length1 :: r == ViaColumn(field, i, j, b))
  }

  /** The one-dimensional transform of column `j`. */
  method TransformColumn(field: array2<real>, j: int) returns (d: array<real>)
    requires field.Length0 >= 1 && 0 <= j < field.Length1
    ensures fresh(d) && d.Length == field.Length0
    ensures forall i | 0 <= i < d.Length :: LowestViaRows(field, i, j, d[i])
  {
    var line := seq(field.Length0, a requires 0 <= a < field.Length0 reads field => field[a, j]);
    d := Edt1D(line);
    assert forall i, a | 0 <= i < |line| && 0 <= a < |line| ::
        CostFrom(line, a, i) == ViaRow(field, i, j, a);
    forall i | 0 <= i < |line| ensures LowestViaRows(field, i, j, d[i]) {
      assert IsLowestCost(line, i, d[i]);
    }
  }

  /** The one-dimensional transform of row `i`. */
  method TransformRow(field: array2<real>, i: int) returns (d: array<real>)
    requires field.Length1 >= 1 && 0 <= i < field.Length0
    ensures fresh(d) && d.Length == field.Length1
    ensures forall j | 0 <= j < d.Length :: LowestViaColumns(field, i, j, d[j])
  {
    var line := seq(field.Length1, b requires 0 <= b < field.Length1 reads field => field[i, b]);
    d := Edt1D(line);
    assert forall j, b | 0 <= j < |line| && 0 <= b < |line| ::
        CostFrom(line, b, j) == ViaColumn(field, i, j, b);
    forall j | 0 <= j < |line| ensures LowestViaColumns(field, i, j, d[j]) {
      assert IsLowestCost(line, j, d[j]);
    }
  }

  method WriteColumn(out: array2<real>, j: int, d: array<real>)
    requires d.Length == out.Length0 && 0 <= j < out.Length1
    modifies out
    ensures forall i, c | 0 <= i < out.Length0 && 0 <= c < out.Length1 ::
      out[i, c] == if c == j then d[i] else old(out[i, c])
  {
    forall i | 0 <= i < out.Length0 {
      out[i, j] := d[i];
    }
  }

  method WriteRow(out: array2<real>, i: int, d: array<real>)
    requires d.Length == out.Length1 && 0 <= i < out.Length0
    modifies out
    ensures forall r, j | 0 <= r < out.Length0 && 0 <= j < out.Length1 ::
      out[r, j] == if r == i then d[j] else old(out[r, j])
  {
    forall j | 0 <= j < out.Length1 {
      out[i, j] := d[j];
    }
  }

  /** One pass of `np.apply_along_axis(_edt_1d, 0, field)`: every column on its own. */
  method TransformAxis0(field: array2<real>) returns (out: array2<real>)
    requires field.Length0 >= 1
    ensures fresh(out) && out.Length0 == field.Length0 && out.Length1 == field.Length1
    ensures forall i, j | 0 <= i < out.Length0 && 0 <= j < out.Length1 ::
      LowestViaRows(field, i, j, out[i, j])
  {
    out := new real[field.Length0, field.Length1];
    for j := 0 to field.Length1
      invariant forall i, c | 0 <= i < out.Length0 && 0 <= c < j :: LowestViaRows(field, i, c, out[i, c])
    {
      var d := TransformColumn(field, j);
      WriteColumn(out, j, d);
    }
  }

  /** One pass of `np.apply_along_axis(_edt_1d, 1, field)`: every row on its own. */
  method TransformAxis1(field: array2<real>) returns (out: array2<real>)
    requires field.Length1 >= 1
    ensures fresh(out) && out.Length0 == field.Length0 && out.Length1 == field.Length1
    ensures forall i, j | 0 <= i < out.Length0 && 0 <= j < out.Length1 ::
      LowestViaColumns(field, i, j, out[i, j])
  {
    out := new real[field.Length0, field.Length1];
    for i := 0 to field.Length0
      invariant forall r, j | 0 <= r < i && 0 <= j < out.Length1 :: LowestViaColumns(field, r, j, out[r, j])
    {
      var d := TransformRow(field, i);
      WriteRow(out, i, d);
    }
  }

  /** The squared Euclidean distance between two pixels. */
  function SquaredDistance(i: int, j: int, a: int, b: int): real {
    Square(i as real - a as real) + Square(j as real - b as real)
  }

  predicate Inside(mask: array2<bool>, a: int, b: int) {
    0 <= a < mask.Length0 && 0 <= b < mask.Length1
  }

  /** `r` is the squared distance from (i, j) to the nearest pixel whose value is `wanted`,
      cut off at `LARGE`, which also stands for "there is no such pixel". */
  ghost predicate IsNearest(mask: array2<bool>, wanted: bool, i: int, j: int, r: real)
    reads mask
  {
    && r <= LARGE
    && (forall a, b | Inside(mask, a, b) && mask[a, b] == wanted :: r <= SquaredDistance(i, j, a, b))
    && (r == LARGE ||
        exists a, b :: Inside(mask, a, b) && mask[a, b] == wanted && r == SquaredDistance(i, j, a, b))
  }

  /** The field both passes start from: free at the wanted pixels, `LARGE` elsewhere. */
  ghost predicate StartsFrom(mask: array2<bool>, wanted: bool, start: array2<real>)
    reads mask, start
  {
    && start.Length0 == mask.Length0 && start.Length1 == mask.Length1
    && forall a, b | Inside(mask, a, b) :: start[a, b] == if mask[a, b] == wanted then 0.0 else LARGE
  }

  /** `middle` is the first pass over `start`. */
  ghost predicate IsFirstPass(start: array2<real>, middle: array2<real>)
    reads start, middle
  {
    && middle.Length0 == start.Length0 && middle.Length1 == start.Length1
    && forall i, j | 0 <= i < start.Length0 && 0 <= j < start.Length1 ::
         LowestViaRows(start, i, j, middle[i, j])
  }

  lemma NoPixelIsCheaper(start: array2<real>, middle: array2<real>, i: int, j: int, a: int, b: int, r: real)
    requires IsFirstPass(start, middle)
    requires 0 <= i < start.Length0 && LowestViaColumns(middle, i, j, r)
    requires 0 <= a < start.Length0 && 0 <= b < start.Length1
    ensures r <= SquaredDistance(i, j, a, b) + start[a, b]
  {
    assert r <= ViaColumn(middle, i, j, b);
    assert LowestViaRows(start, i, b, middle[i, b]);
    assert middle[i, b] <= ViaRow(start, i, b, a);
  }

  lemma SomePixelAttains(start: array2<real>, middle: array2<real>, i: int, j: int, r: real)
    returns (a: int, b: int)
    requires IsFirstPass(start, middle)
    requires 0 <= i < start.Length0 && LowestViaColumns(middle, i, j, r)
    ensures 0 <= a < start.Length0 && 0 <= b < start.Length1
    ensures r == SquaredDistance(i, j, a, b) + start[a, b]
  {
    b :| 0 <= b < middle.Length1 && r == ViaColumn(middle, i, j, b);
    assert LowestViaRows(start, i, b, middle[i, b]);
    a :| 0 <= a < start.Length0 && middle[i, b] == ViaRow(start, i, b, a);
  }

  lemma SquaredDistanceSign(i: int, j: int, a: int, b: int)
    ensures SquaredDistance(i, j, a, b) >= 0.0
    ensures SquaredDistance(i, j, i, j) == 0.0
    ensures i != a || j != b ==> SquaredDistance(i, j, a, b) >= 1.0
  {
    SquareOfWhole(i, a);
    SquareOfWhole(j, b);
  }

  lemma SquareOfWhole(i: int, a: int)
    ensures Square(i as real - a as real) >= 0.0
    ensures i != a ==> Square(i as real - a as real) >= 1.0
  {
    var x := i - a;
    assert i as real - a as real == x as real;
    assert Square(x as real) == (x * x) as real;
    assert x * x >= 0 && (x != 0 ==> x * x >= 1) by {
      if x > 0 {
        assert x * x >= x;
      } else if x < 0 {
        assert x * x == (-x) * (-x) >= -x;
      }
    }
  }

  /** Rows after columns: the two passes together search every pixel. */
  lemma PassesSearchEveryPixel(mask: array2<bool>, wanted: bool, start: array2<real>, middle: array2<real>,
                               i: int, j: int, r: real)
    requires Inside(mask, i, j)
    requires StartsFrom(mask, wanted, start) && IsFirstPass(start, middle)
    requires LowestViaColumns(middle, i, j, r)
    ensures IsNearest(mask, wanted, i, j, r)
  {
    forall a, b | Inside(mask, a, b) ensures r <= SquaredDistance(i, j, a, b) + start[a, b] {
      NoPixelIsCheaper(start, middle, i, j, a, b, r);
    }
    SquaredDistanceSign(i, j, i, j);
    assert start[i, j] <= LARGE;
    var a, b := SomePixelAttains(start, middle, i, j, r);
    SquaredDistanceSign(i, j, a, b);
    assert Inside(mask, a, b);
  }

  // ---------------------------------------------------------------------------
  // The same in plain numbers
  // ---------------------------------------------------------------------------

  ghost predicate HasPixel(mask: array2<bool>, wanted: bool)
    reads mask
  {
    exists a, b :: Inside(mask, a, b) && mask[a, b] == wanted
  }

  /** No two pixels are 10^6 or more apart. */
  predicate IsSmall(mask: array2<bool>) {
    var rows, columns := mask.Length0 - 1, mask.Length1 - 1;
    rows * rows + columns * columns < 1000000000000
  }

  /** `r` is the squared distance to a pixel of that value, and at most that to every one. */
  ghost predicate IsSquareToNearest(mask: array2<bool>, wanted: bool, i: int, j: int, r: real)
    reads mask
  {
    && (exists a, b :: Inside(mask, a, b) && mask[a, b] == wanted
                       && r == ((i - a) * (i - a) + (j - b) * (j - b)) as real)
    && (forall a, b | Inside(mask, a, b) && mask[a, b] == wanted ::
          r <= ((i - a) * (i - a) + (j - b) * (j - b)) as real)
  }

  /** What a field of squared distances holds at a pixel. */
  ghost predicate IsExact(mask: array2<bool>, wanted: bool, i: int, j: int, r: real)
    reads mask
  {
    && (HasPixel(mask, wanted) && IsSmall(mask) ==> IsSquareToNearest(mask, wanted, i, j, r))
    && (!HasPixel(mask, wanted) ==> r == 1000000000000.0)
  }

  lemma DistanceInNumbers(i: int, j: int, a: int, b: int)
    ensures SquaredDistance(i, j, a, b) == ((i - a) * (i - a) + (j - b) * (j - b)) as real
  {
    SquareInNumbers(i, a);
    SquareInNumbers(j, b);
  }

  lemma SquareInNumbers(i: int, a: int)
    ensures Square(i as real - a as real) == ((i - a) * (i - a)) as real
  {
    assert i as real - a as real == (i - a) as real;
  }

  lemma SquareIsAtMost(x: int, n: int)
    requires -n <= x <= n
    ensures x * x <= n * n
  {
    var y := if x < 0 then -x else x;
    assert x * x == y * y;
    assert y * y <= y * n <= n * n;
  }

  lemma DistancesAreSmall(mask: array2<bool>, i: int, j: int, a: int, b: int)
    requires Inside(mask, i, j) && Inside(mask, a, b) && IsSmall(mask)
    ensures (i - a) * (i - a) + (j - b) * (j - b) < 1000000000000
  {
    SquareIsAtMost(i - a, mask.Length0 - 1);
    SquareIsAtMost(j - b, mask.Length1 - 1);
  }

  /** The stand-in is out of reach in every mask that is not enormous. */
  lemma NearestIsExact(mask: array2<bool>, wanted: bool, i: int, j: int, r: real)
    requires Inside(mask, i, j) && IsNearest(mask, wanted, i, j, r)
    ensures IsExact(mask, wanted, i, j, r)
  {
    forall a, b | Inside(mask, a, b)
      ensures SquaredDistance(i, j, a, b) == ((i - a) * (i - a) + (j - b) * (j - b)) as real
    {
      DistanceInNumbers(i, j, a, b);
    }
    if HasPixel(mask, wanted) && IsSmall(mask) {
      var a, b :| Inside(mask, a, b) && mask[a, b] == wanted;
      DistancesAreSmall(mask, i, j, a, b);
      assert r <= SquaredDistance(i, j, a, b);
    }
  }

  /** `squared_edt` of the mask (`wanted`) or of its complement (`!wanted`). */
  method SquaredEdt(mask: array2<bool>, wanted: bool) returns (field: array2<real>)
    requires mask.Length0 >= 1 && mask.Length1 >= 1
    ensures fresh(field) && field.Length0 == mask.Length0 && field.Length1 == mask.Length1
    ensures forall i, j | Inside(mask, i, j) :: IsNearest(mask, wanted, i, j, field[i, j])
    ensures forall i, j | Inside(mask, i, j) :: IsExact(mask, wanted, i, j, field[i, j])
  {
    var start := new real[mask.Length0, mask.Length1](
      (a, b) requires Inside(mask, a, b) reads mask => if mask[a, b] == wanted then 0.0 else LARGE);
    var middle := TransformAxis0(start);
    field := TransformAxis1(middle);
    forall i, j | Inside(mask, i, j) ensures IsNearest(mask, wanted, i, j, field[i, j]) {
      PassesSearchEveryPixel(mask, wanted, start, middle, i, j, field[i, j]);
    }
    forall i, j | Inside(mask, i, j) ensures IsExact(mask, wanted, i, j, field[i, j]) {
      NearestIsExact(mask, wanted, i, j, field[i, j]);
    }
  }

  /** `root` is the real square root. */
  ghost predicate IsSquareRoot(root: real -> real) {
    forall x: real | x >= 0.0 :: root(x) >= 0.0 && Square(root(x)) == x
  }

  /** A pixel of the other kind is at least one pixel away. */
  lemma OppositeIsAtLeastOneAway(mask: array2<bool>, i: int, j: int, r: real)
    requires Inside(mask, i, j) && IsNearest(mask, !mask[i, j], i, j, r)
    ensures r >= 1.0
  {
    if r != LARGE {
      var a, b :| Inside(mask, a, b) && mask[a, b] == !mask[i, j] && r == SquaredDistance(i, j, a, b);
      SquaredDistanceSign(i, j, a, b);
    }
  }

  /** What the root adds: the sign is free to carry membership, the square is kept. */
  lemma RootKeepsSquare(root: real -> real, r: real)
    requires IsSquareRoot(root) && r >= 1.0
    ensures root(r) > 0.0 && Square(root(r)) == r && Square(-root(r)) == r
  {
    assert root(r) >= 0.0 && Square(root(r)) == r;
    assert (-root(r)) * (-root(r)) == root(r) * root(r);
  }

  /** One pixel of the signed field. */
  ghost predicate IsSignedDistance(mask: array2<bool>, i: int, j: int, value: real)
    requires Inside(mask, i, j)
    reads mask
  {
    && (value < 0.0 <==> mask[i, j])
    && Square(value) >= 1.0
    && IsNearest(mask, !mask[i, j], i, j, Square(value))
  }

  lemma SignedPixel(mask: array2<bool>, root: real -> real, i: int, j: int, inside: real, outside: real)
    requires Inside(mask, i, j) && IsSquareRoot(root)
    requires IsNearest(mask, true, i, j, outside) && IsNearest(mask, false, i, j, inside)
    ensures IsSignedDistance(mask, i, j, if mask[i, j] then -root(inside) else root(outside))
  {
    var r := if mask[i, j] then inside else outside;
    OppositeIsAtLeastOneAway(mask, i, j, r);
    RootKeepsSquare(root, r);
  }

  /** The same in plain numbers: the sign tells the mask, and the square is the squared distance to the
      nearest pixel of the other kind. */
  ghost predicate IsExactSigned(mask: array2<bool>, i: int, j: int, value: real)
    requires Inside(mask, i, j)
    reads mask
  {
    && (value < 0.0 <==> mask[i, j])
    && value * value >= 1.0
    && IsExact(mask, !mask[i, j], i, j, value * value)
  }

  lemma SignedIsExact(mask: array2<bool>, i: int, j: int, value: real)
    requires Inside(mask, i, j) && IsSignedDistance(mask, i, j, value)
    ensures IsExactSigned(mask, i, j, value)
  {
    NearestIsExact(mask, !mask[i, j], i, j, Square(value));
  }

  /** `np.where(mask, -inside, outside)` over the roots of the two transforms. */
  method SelectSigned(mask: array2<bool>, root: real -> real, inside: array2<real>, outside: array2<real>)
    returns (field: array2<real>)
    requires inside.Length0 == outside.Length0 == mask.Length0
    requires inside.Length1 == outside.Length1 == mask.Length1
    ensures fresh(field) && field.Length0 == mask.Length0 && field.Length1 == mask.Length1
    ensures forall i, j | Inside(mask, i, j) ::
      field[i, j] == if mask[i, j] then -root(inside[i, j]) else root(outside[i, j])
  {
    field := new real[mask.Length0, mask.Length1];
    forall i, j | 0 <= i < mask.Length0 && 0 <= j < mask.Length1 {
      field[i, j] := if mask[i, j] then -root(inside[i, j]) else root(outside[i, j]);
    }
  }

  /** `signed_distance`: negative exactly on the mask, never closer to zero than one pixel,
      and its square is the distance to the nearest pixel of the other kind. */
  method SignedDistance(mask: array2<bool>, root: real -> real) returns (field: array2<real>)
    requires mask.Length0 >= 1 && mask.Length1 >= 1
    requires IsSquareRoot(root)
    ensures fresh(field) && field.Length0 == mask.Length0 && field.Length1 == mask.Length1
    ensures forall i, j | Inside(mask, i, j) :: IsSignedDistance(mask, i, j, field[i, j])
    ensures forall i, j | Inside(mask, i, j) :: IsExactSigned(mask, i, j, field[i, j])
  {
    var outside := SquaredEdt(mask, true);
    var inside := SquaredEdt(mask, false);
    forall i, j | Inside(mask, i, j)
      ensures IsSignedDistance(mask, i, j, if mask[i, j] then -root(inside[i, j]) else root(outside[i, j]))
    {
      SignedPixel(mask, root, i, j, inside[i, j], outside[i, j]);
    }
    field := SelectSigned(mask, root, inside, outside);
    forall i, j | Inside(mask, i, j) ensures IsExactSigned(mask, i, j, field[i, j]) {
      SignedIsExact(mask, i, j, field[i, j]);
    }
  }
}

/** The CUDA stability workload (stability/cuda_bruteforce.py): two grid-stride PTX kernels,
    whose threads may interleave in any order, against the host's reference. */
module CudaKernels {

  // ---------------------------------------------------------------------------
  // 32-bit words
  // ---------------------------------------------------------------------------

  const WORD := 0x1_0000_0000

  type u32 = x: int | 0 <= x < WORD

  function Wrap(x: int): u32 {
    x % WORD
  }

  /** Exclusive or of two natural numbers, bit by bit. */
  function Xor(a: nat, b: nat): nat
    decreases a + b
  {
    if a + b == 0 then 0 else (a % 2 + b % 2) % 2 + 2 * Xor(a / 2, b / 2)
  }

  function XorB32(a: u32, b: u32): u32 {
    Wrap(Xor(a, b))
  }

  function MadLo(a: u32, b: u32, c: u32): u32 {
    Wrap(a * b + c)
  }

  function AddU32(a: u32, b: u32): u32 {
    Wrap(a + b)
  }

  /** `shr.u32` by 13 and 17 and `shl.b32` by 7, the shifts the kernel uses. */
  function Shr13(a: u32): u32 {
    a / 8192
  }

  function Shr17(a: u32): u32 {
    a / 131072
  }

  function Shl7(a: u32): u32 {
    Wrap(a * 128)
  }

  // ---------------------------------------------------------------------------
  // The value every index must get
  // ---------------------------------------------------------------------------

  datatype Pair = Pair(x: u32, y: u32)

  /** One round of mixing. */
  function Mix(p: Pair): Pair {
    var x1 := AddU32(MadLo(p.x, 1664525, 1013904223), p.y);
    var y1 := MadLo(XorB32(p.y, Shr13(x1)), 22695477, 1);
    var x2 := XorB32(x1, Shl7(y1));
    Pair(x2, XorB32(y1, Shr17(x2)))
  }

  function Mixed(p: Pair, rounds: nat): Pair {
    if rounds == 0 then p else Mix(Mixed(p, rounds - 1))
  }

  function Reference(index: u32, rounds: nat, seed0: u32, seed1: u32): Pair {
    Mixed(Pair(XorB32(seed0, index), MadLo(index, 17, seed1)), rounds)
  }

  // ---------------------------------------------------------------------------
  // What the words and the rounds are
  // ---------------------------------------------------------------------------

  function Pow2(k: nat): (p: nat)
    ensures p > 0
  {
    if k == 0 then 1 else 2 * Pow2(k - 1)
  }

  /** Bit `k` of a natural number. */
  function Bit(a: nat, k: nat): nat {
    a / Pow2(k) % 2
  }

  lemma NextBit(a: nat, k: nat)
    requires k > 0
    ensures Bit(a, k) == Bit(a / 2, k - 1)
  {
    HalfThenQuotient(a, Pow2(k - 1));
  }

  lemma HalfThenQuotient(a: nat, p: nat)
    requires p > 0
    ensures a / (2 * p) == a / 2 / p
  {
    var q, half := a / 2 / p, a / 2;
    assert half == q * p + half % p;
    assert a == 2 * half + a % 2;
    assert a == q * (2 * p) + (2 * (half % p) + a % 2);
    QuotientIs(a, 2 * p, q, 2 * (half % p) + a % 2);
  }

  lemma QuotientIs(a: nat, d: nat, q: nat, r: nat)
    requires d > 0 && a == q * d + r && r < d
    ensures a / d == q
  {
    var s := a / d;
    assert (s - q) * d == r - a % d;
    MultipleIsFar(s - q, d);
  }

  lemma MultipleIsFar(m: int, d: nat)
    ensures m > 0 ==> m * d >= d
    ensures m < 0 ==> m * d + d <= 0
  {
    if m > 0 {
      MultiplyKeepsOrder(1, m, d);
    } else if m < 0 {
      MultiplyKeepsOrder(1, -m, d);
    }
  }

  lemma BitAndHalf(bit: nat, x: nat)
    requires bit < 2
    ensures (bit + 2 * x) / 2 == x && (bit + 2 * x) % 2 == bit
  {
  }

  lemma XorIs(a: nat, b: nat)
    ensures Xor(a, b) == (a % 2 + b % 2) % 2 + 2 * Xor(a / 2, b / 2)
  {
  }

  lemma Parity(a: nat, b: nat)
    ensures (a % 2 + b % 2) % 2 == if a % 2 != b % 2 then 1 else 0
  {
  }

  lemma XorUnfolds(a: nat, b: nat)
    ensures Xor(a, b) / 2 == Xor(a / 2, b / 2)
    ensures Xor(a, b) % 2 == if a % 2 != b % 2 then 1 else 0
  {
    var x, bit, half := Xor(a, b), (a % 2 + b % 2) % 2, Xor(a / 2, b / 2);
    XorIs(a, b);
    Parity(a, b);
    BitAndHalf(bit, half);
  }

  lemma FirstBit(a: nat)
    ensures Bit(a, 0) == a % 2
  {
  }

  /** `Xor` is exclusive or: each bit of the result is one exactly when the two bits differ. */
  lemma {:induction false} XorOfBits(a: nat, b: nat, k: nat)
    ensures Bit(Xor(a, b), k) == if Bit(a, k) != Bit(b, k) then 1 else 0
    decreases k
  {
    var x := Xor(a, b);
    XorUnfolds(a, b);
    if k == 0 {
      FirstBit(x);
      FirstBit(a);
      FirstBit(b);
    } else {
      NextBit(x, k);
      NextBit(a, k);
      NextBit(b, k);
      XorOfBits(a / 2, b / 2, k - 1);
    }
  }

  /** So it takes itself back. */
  lemma {:induction false} XorTakesBack(a: nat, b: nat)
    ensures Xor(Xor(a, b), b) == a
    decreases a + b
  {
    if a + b > 0 {
      XorUnfolds(a, b);
      XorUnfolds(Xor(a, b), b);
      XorTakesBack(a / 2, b / 2);
    }
  }

  lemma {:induction false} XorIsBelow(a: nat, b: nat, k: nat)
    requires a < Pow2(k) && b < Pow2(k)
    ensures Xor(a, b) < Pow2(k)
    decreases k
  {
    if k > 0 {
      XorUnfolds(a, b);
      XorIsBelow(a / 2, b / 2, k - 1);
    }
  }

  lemma WordBits() returns (k: nat)
    ensures Pow2(k) == 0x1_0000_0000
  {
    k := 32;
    assert Pow2(8) == 256;
    assert Pow2(16) == 65536;
    assert Pow2(24) == 16777216;
  }

  lemma WrapOfWord(x: int)
    requires 0 <= x < 0x1_0000_0000
    ensures Wrap(x) == x
  {
  }

  lemma XorIsWord(a: u32, b: u32)
    ensures Xor(a, b) < 0x1_0000_0000
  {
    var k := WordBits();
    XorIsBelow(a, b, k);
  }

  /** Words stay words, so nothing is cut off. */
  lemma XorOfWords(a: u32, b: u32)
    ensures XorB32(a, b) == Xor(a, b)
  {
    XorIsWord(a, b);
    WrapOfWord(Xor(a, b));
  }

  lemma XorB32TakesBack(a: u32, b: u32)
    ensures XorB32(XorB32(a, b), b) == a
  {
    var x := XorB32(a, b);
    XorOfWords(a, b);
    XorTakesBack(a, b);
    XorOfWords(x, b);
  }

  /** What takes a round back: its steps undone, last one first, with the inverses of the two odd factors
      modulo 2^32. */
  function Unmix(p: Pair): Pair {
    UnmixFirst(UnmixMiddle(UnmixLast(p)))
  }

  function UnmixLast(p: Pair): Pair {
    var y := XorB32(p.y, p.x / 131072);
    Pair(XorB32(p.x, Wrap(y * 128)), y)
  }

  function UnmixMiddle(p: Pair): Pair {
    Pair(p.x, XorB32(MadLo(Wrap(p.y - 1), 690295837, 0), p.x / 8192))
  }

  function UnmixFirst(p: Pair): Pair {
    Pair(MadLo(Wrap(p.x - (1013904223 + p.y)), 4276115653, 0), p.y)
  }

  lemma TimesInverse(x: u32, c: int, factor: int, inverse: u32, product: u32)
    requires factor * inverse % 0x1_0000_0000 == 1
    requires product == Wrap(x * factor + c)
    ensures MadLo(Wrap(product - c), inverse, 0) == x
  {
    var q := LessAgain(x * factor, c, product);
    var k := factor * inverse / WORD;
    ProductOfInverse(x, factor, inverse, q, k);
    ModIgnoresMultiples(x, x * k - q * inverse);
  }

  lemma LessAgain(a: int, c: int, sum: u32) returns (q: int)
    requires sum == Wrap(a + c)
    ensures Wrap(sum - c) == a - q * WORD
  {
    q := (a + c) / WORD + (sum - c) / WORD;
  }

  lemma ProductOfInverse(x: int, factor: int, inverse: int, q: int, k: int)
    requires factor * inverse == k * WORD + 1
    ensures (x * factor - q * WORD) * inverse == x + (x * k - q * inverse) * WORD
  {
    assert (x * factor) * inverse == x * (factor * inverse) == x * (k * WORD + 1);
    assert (q * WORD) * inverse == (q * inverse) * WORD;
  }

  lemma SumOfSum(a: int, b: int, c: int)
    ensures Wrap(Wrap(a + b) + c) == Wrap(a + (b + c))
  {
    var q := (a + b) / WORD;
    assert a + b == Wrap(a + b) + q * WORD;
    ModIgnoresMultiples(Wrap(a + b) + c, q);
  }

  lemma FirstStepsAreOne(x: u32, y: u32)
    ensures AddU32(MadLo(x, 1664525, 1013904223), y) == Wrap(x * 1664525 + (1013904223 + y))
  {
    SumOfSum(x * 1664525, 1013904223, y);
  }

  lemma FirstStepIsUndone(x: u32, y: u32, x1: u32)
    requires x1 == Wrap(x * 1664525 + (1013904223 + y))
    ensures MadLo(Wrap(x1 - (1013904223 + y)), 4276115653, 0) == x
  {
    TimesInverse(x, 1013904223 + y, 1664525, 4276115653, x1);
  }

  lemma FirstStepsAreUndone(x: u32, y: u32)
    ensures UnmixFirst(Pair(AddU32(MadLo(x, 1664525, 1013904223), y), y)) == Pair(x, y)
  {
    FirstStepsAreOne(x, y);
    FirstStepIsUndone(x, y, AddU32(MadLo(x, 1664525, 1013904223), y));
  }

  lemma ThirdStepIsUndone(z: u32, y1: u32)
    requires y1 == MadLo(z, 22695477, 1)
    ensures MadLo(Wrap(y1 - 1), 690295837, 0) == z
  {
    TimesInverse(z, 1, 22695477, 690295837, y1);
  }

  lemma UnmixMiddleIs(p: Pair, z: u32)
    requires MadLo(Wrap(p.y - 1), 690295837, 0) == z
    ensures UnmixMiddle(p) == Pair(p.x, XorB32(z, p.x / 8192))
  {
  }

  lemma MiddleStepsAreUndone(x1: u32, y: u32)
    ensures UnmixMiddle(Pair(x1, MadLo(XorB32(y, Shr13(x1)), 22695477, 1))) == Pair(x1, y)
  {
    var z := XorB32(y, Shr13(x1));
    var y1 := MadLo(z, 22695477, 1);
    ThirdStepIsUndone(z, y1);
    UnmixMiddleIs(Pair(x1, y1), z);
    XorB32TakesBack(y, Shr13(x1));
  }

  lemma LastStepsAreUndone(x1: u32, y1: u32)
    ensures var x2 := XorB32(x1, Shl7(y1));
            UnmixLast(Pair(x2, XorB32(y1, Shr17(x2)))) == Pair(x1, y1)
  {
    var x2 := XorB32(x1, Shl7(y1));
    XorB32TakesBack(y1, Shr17(x2));
    XorB32TakesBack(x1, Shl7(y1));
  }

  /** A round of mixing is undone, so no two pairs mix to one. */
  lemma RoundIsUndone(p: Pair)
    ensures Unmix(Mix(p)) == p
  {
    var x1 := AddU32(MadLo(p.x, 1664525, 1013904223), p.y);
    FirstStepsAreUndone(p.x, p.y);
    MiddleStepsAreUndone(x1, p.y);
    LastStepsAreUndone(x1, MadLo(XorB32(p.y, Shr13(x1)), 22695477, 1));
  }

  function Unmixed(p: Pair, rounds: nat): Pair
    decreases rounds
  {
    if rounds == 0 then p else Unmixed(Unmix(p), rounds - 1)
  }

  lemma UnmixedUnfolds(p: Pair, rounds: nat)
    requires rounds > 0
    ensures Unmixed(p, rounds) == Unmixed(Unmix(p), rounds - 1)
  {
  }

  /** All the rounds are undone as well, one by one. */
  lemma {:induction false} MixedIsUndone(p: Pair, rounds: nat)
    ensures Unmixed(Mixed(p, rounds), rounds) == p
    decreases rounds
  {
    if rounds > 0 {
      var q := Mixed(p, rounds - 1);
      RoundIsUndone(q);
      UnmixedUnfolds(Mix(q), rounds);
      MixedIsUndone(p, rounds - 1);
    }
  }

  /** That leads down to the index mixed into the two seeds. */
  lemma ReferenceIsUndone(index: u32, rounds: nat, seed0: u32, seed1: u32)
    ensures Unmixed(Reference(index, rounds, seed0, seed1), rounds)
         == Pair(XorB32(seed0, index), (index * 17 + seed1) % 0x1_0000_0000)
  {
    MixedIsUndone(Pair(XorB32(seed0, index), MadLo(index, 17, seed1)), rounds);
  }

  /** The index goes into the first word and, 17 times, into the second, so two indices never get the same
      pair. */
  lemma IndicesStayApart(i: u32, j: u32, rounds: nat, seed0: u32, seed1: u32)
    requires Reference(i, rounds, seed0, seed1) == Reference(j, rounds, seed0, seed1)
    ensures i == j
  {
    ReferenceIsUndone(i, rounds, seed0, seed1);
    ReferenceIsUndone(j, rounds, seed0, seed1);
    StartsStayApart(i, j, seed1);
  }

  lemma StartsStayApart(i: u32, j: u32, seed1: u32)
    requires (i * 17 + seed1) % 0x1_0000_0000 == (j * 17 + seed1) % 0x1_0000_0000
    ensures i == j
  {
    TimesInverse(i, seed1, 17, 4042322161, Wrap(i * 17 + seed1));
    TimesInverse(j, seed1, 17, 4042322161, Wrap(j * 17 + seed1));
  }

  /** `_cpu_reference`: unbounded integers, masked after each operation. */
  method CpuReference(index: u32, rounds: nat, seed0: u32, seed1: u32) returns (x: u32, y: u32)
    ensures Pair(x, y) == Reference(index, rounds, seed0, seed1)
  {
    x := Wrap(Xor(seed0, index));
    y := Wrap(index * 17 + seed1);
    for round := 0 to rounds
      invariant Pair(x, y) == Reference(index, round, seed0, seed1)
    {
      x, y := CpuRound(x, y);
    }
  }

  method CpuRound(x0: u32, y0: u32) returns (x: u32, y: u32)
    ensures Pair(x, y) == Mix(Pair(x0, y0))
  {
    var a: int, b: int := x0, y0;
    a := a * 1664525 + 1013904223;
    x := Wrap(a);
    assert x == MadLo(x0, 1664525, 1013904223);
    a := x + b;
    x := Wrap(a);
    assert x == AddU32(MadLo(x0, 1664525, 1013904223), y0);
    b := Wrap(Xor(y0, x / 8192));
    assert b == XorB32(y0, Shr13(x));
    b := b * 22695477 + 1;
    y := Wrap(b);
    assert y == MadLo(XorB32(y0, Shr13(x)), 22695477, 1);
    a, b := x, y;
    x := Wrap(Xor(a, Wrap(b * 128)));
    assert x == XorB32(a, Shl7(y));
    y := Wrap(Xor(b, x / 131072));
  }

  /** `add.u32 %r13, %r13, 1` does not wrap below the round limit. */
  method NextRound(r13: u32, r2: u32) returns (next: u32)
    requires r13 < r2
    ensures next == r13 + 1
  {
    next := AddU32(r13, 1);
  }

  /** The registers of `brute_force_kernel` from one loop head to the stores. */
  method KernelBody(r9: u32, r2: u32, r3: u32, r4: u32) returns (r11: u32, r12: u32)
    ensures Pair(r11, r12) == Reference(r9, r2, r3, r4)
  {
    r11 := XorB32(r3, r9);
    r12 := MadLo(r9, 17, r4);
    var r13: u32 := 0;
    while r13 < r2
      invariant r13 <= r2
      invariant Pair(r11, r12) == Reference(r9, r13, r3, r4)
    {
      r11, r12 := KernelRound(r11, r12);
      r13 := NextRound(r13, r2);
    }
  }

  /** `LOOP_R`, register by register. */
  method KernelRound(x: u32, y: u32) returns (r11: u32, r12: u32)
    ensures Pair(r11, r12) == Mix(Pair(x, y))
  {
    r11, r12 := x, y;
    r11 := MadLo(r11, 1664525, 1013904223);
    r11 := AddU32(r11, r12);
    var r14 := Shr13(r11);
    r12 := XorB32(r12, r14);
    r12 := MadLo(r12, 22695477, 1);
    var r15 := Shl7(r12);
    r11 := XorB32(r11, r15);
    var r16 := Shr17(r11);
    r12 := XorB32(r12, r16);
  }

  // ---------------------------------------------------------------------------
  // The grid-stride loop, threads interleaved in any order
  // ---------------------------------------------------------------------------

  /** `i` is the index register, `turns` how often the thread went round its loop. */
  datatype Thread = Thread(i: u32, turns: nat, done: bool)

  /** `log` records the visited indices in the order the visits happened. */
  datatype Grid = Grid(threads: seq<Thread>, log: seq<u32>)

  /** `mad.lo` gives the first index, `mul.lo` the stride: both wrap. */
  function Launch(threads: nat): Grid {
    Grid(seq(threads, t requires 0 <= t < threads => Thread(Wrap(t), 0, false)), [])
  }

  /** Thread `t` goes once round its loop; a finished or absent thread does nothing. */
  function Step(g: Grid, n: u32, t: nat): Grid {
    if t >= |g.threads| || g.threads[t].done then g
    else
      var th := g.threads[t];
      if th.i >= n then g.(threads := g.threads[t := th.(done := true)])
      else Grid(g.threads[t := Thread(AddU32(th.i, Wrap(|g.threads|)), th.turns + 1, false)], g.log + [th.i])
  }

  /** A schedule names the thread that moves next. */
  function Run(g: Grid, n: u32, schedule: seq<nat>): Grid {
    if schedule == [] then g
    else Step(Run(g, n, schedule[..|schedule| - 1]), n, schedule[|schedule| - 1])
  }

  ghost predicate Complete(g: Grid) {
    forall t | 0 <= t < |g.threads| :: g.threads[t].done
  }

  /** The index thread `t` of `total` visits on turn `k`. */
  function Visit(total: nat, t: nat, k: nat): u32 {
    Wrap(t + k * total)
  }

  ghost predicate Visited(g: Grid, t: nat, k: nat) {
    t < |g.threads| && k < g.threads[t].turns
  }

  /** The log shows index `j` at two different places. */
  ghost predicate Twice(log: seq<u32>, j: u32) {
    exists a, b :: 0 <= a < b < |log| && log[a] == j && log[b] == j
  }

  ghost predicate VisitedTwice(g: Grid, j: u32) {
    exists t, k, t', k' :: SameVisit(g, j, t, k, t', k')
  }

  ghost predicate SameVisit(g: Grid, j: u32, t: nat, k: nat, t': nat, k': nat) {
    && Visited(g, t, k) && Visited(g, t', k') && (t != t' || k != k')
    && Visit(|g.threads|, t, k) == j && Visit(|g.threads|, t', k') == j
  }

  ghost predicate VisitedOnce(g: Grid, j: u32) {
    exists t, k :: Visited(g, t, k) && Visit(|g.threads|, t, k) == j
  }

  /** What every interleaving keeps: the registers follow the turn counters, and the log is
      exactly what the threads visited, repetitions included. */
  ghost predicate Consistent(g: Grid, n: u32) {
    && (forall t | 0 <= t < |g.threads| ::
          && g.threads[t].i == Visit(|g.threads|, t, g.threads[t].turns)
          && (g.threads[t].done ==> g.threads[t].i >= n))
    && (forall t, k | Visited(g, t, k) :: Visit(|g.threads|, t, k) < n && Visit(|g.threads|, t, k) in g.log)
    && (forall j: u32 | j in g.log :: VisitedOnce(g, j))
    && (forall j: u32 | VisitedTwice(g, j) :: Twice(g.log, j))
    && (forall j: u32 | Twice(g.log, j) :: VisitedTwice(g, j))
  }

  lemma VisitAdvances(total: nat, t: nat, k: nat)
    ensures AddU32(Visit(total, t, k), Wrap(total)) == Visit(total, t, k + 1)
  {
    assert t + (k + 1) * total == t + k * total + total;
    WrapAdds(t + k * total, total);
  }

  lemma WrapAdds(a: nat, b: nat)
    ensures Wrap(Wrap(a) + Wrap(b)) == Wrap(a + b)
  {
    var q := a / WORD + b / WORD;
    assert a + b == Wrap(a) + Wrap(b) + q * WORD;
  }

  lemma LaunchIsConsistent(total: nat, n: u32)
    ensures Consistent(Launch(total), n)
  {
    assert forall t: nat | t < total :: Visit(total, t, 0) == Wrap(t);
  }

  /** A visit appends one index and adds one visit; everything else is as before. */
  ghost predicate VisitStep(g: Grid, n: u32, t: nat, g': Grid) {
    && t < |g.threads| && |g'.threads| == |g.threads|
    && g.threads[t].i < n
    && g'.log == g.log + [g.threads[t].i]
    && g.threads[t].i == Visit(|g.threads|, t, g.threads[t].turns)
    && (forall u, k :: Visited(g', u, k) <==> Visited(g, u, k) || (u == t && k == g.threads[t].turns))
  }

  lemma RepeatedVisitIsLogged(g: Grid, n: u32, t: nat, g': Grid, j: u32, u: nat, k: nat, u': nat, k': nat)
    requires Consistent(g, n) && VisitStep(g, n, t, g')
    requires SameVisit(g', j, u, k, u', k')
    ensures Twice(g'.log, j)
  {
    if Visited(g, u, k) && Visited(g, u', k') {
      assert SameVisit(g, j, u, k, u', k');
      assert VisitedTwice(g, j);
      var a, b :| 0 <= a < b < |g.log| && g.log[a] == j && g.log[b] == j;
      assert g'.log[a] == j && g'.log[b] == j;
    } else {
      assert j == g.threads[t].i;
      assert j in g.log;
      var a :| 0 <= a < |g.log| && g.log[a] == j;
      assert g'.log[a] == j && g'.log[|g.log|] == j;
    }
  }

  lemma RepeatedEntryWasVisited(g: Grid, n: u32, t: nat, g': Grid, j: u32)
    requires Consistent(g, n) && VisitStep(g, n, t, g')
    requires Twice(g'.log, j)
    ensures VisitedTwice(g', j)
  {
    var a, b :| 0 <= a < b < |g'.log| && g'.log[a] == j && g'.log[b] == j;
    assert g.log[a] == j;
    if b < |g.log| {
      assert g.log[b] == j;
      assert Twice(g.log, j);
      assert VisitedTwice(g, j);
      var u, k, u', k' :| SameVisit(g, j, u, k, u', k');
      assert SameVisit(g', j, u, k, u', k');
    } else {
      assert VisitedOnce(g, j);
      var u, k :| Visited(g, u, k) && Visit(|g.threads|, u, k) == j;
      assert SameVisit(g', j, u, k, t, g.threads[t].turns);
    }
  }

  lemma VisitKeepsRepetitions(g: Grid, n: u32, t: nat, g': Grid, j: u32)
    requires Consistent(g, n) && VisitStep(g, n, t, g')
    ensures VisitedTwice(g', j) <==> Twice(g'.log, j)
  {
    if VisitedTwice(g', j) {
      var u, k, u', k' :| SameVisit(g', j, u, k, u', k');
      RepeatedVisitIsLogged(g, n, t, g', j, u, k, u', k');
    }
    if Twice(g'.log, j) {
      RepeatedEntryWasVisited(g, n, t, g', j);
    }
  }

  lemma VisitKeepsLog(g: Grid, n: u32, t: nat, g': Grid)
    requires Consistent(g, n) && VisitStep(g, n, t, g')
    ensures forall u, k | Visited(g', u, k) :: Visit(|g.threads|, u, k) < n && Visit(|g.threads|, u, k) in g'.log
    ensures forall j: u32 | j in g'.log :: VisitedOnce(g', j)
  {
    assert g'.log[|g.log|] == g.threads[t].i;
    forall j: u32 | j in g'.log ensures VisitedOnce(g', j) {
      if j in g.log {
        assert VisitedOnce(g, j);
        var u, k :| Visited(g, u, k) && Visit(|g.threads|, u, k) == j;
        assert Visited(g', u, k);
      } else {
        assert Visited(g', t, g.threads[t].turns);
      }
    }
  }

  lemma StepKeepsConsistent(g: Grid, n: u32, t: nat)
    requires Consistent(g, n)
    ensures Consistent(Step(g, n, t), n)
  {
    var g' := Step(g, n, t);
    if g' != g {
      var th := g.threads[t];
      if th.i >= n {
        assert forall u, k :: Visited(g', u, k) <==> Visited(g, u, k);
        forall j: u32 ensures VisitedOnce(g', j) <==> VisitedOnce(g, j) {
        }
        forall j: u32 ensures VisitedTwice(g', j) <==> VisitedTwice(g, j) {
          assert forall u, k, u', k' :: SameVisit(g', j, u, k, u', k') <==> SameVisit(g, j, u, k, u', k');
        }
      } else {
        VisitAdvances(|g.threads|, t, th.turns);
        assert VisitStep(g, n, t, g');
        VisitKeepsLog(g, n, t, g');
        forall j: u32 ensures VisitedTwice(g', j) <==> Twice(g'.log, j) {
          VisitKeepsRepetitions(g, n, t, g', j);
        }
      }
    }
  }

  /** Every interleaving keeps the invariant. */
  lemma {:induction false} EveryRunIsConsistent(total: nat, n: u32, schedule: seq<nat>)
    ensures Consistent(Run(Launch(total), n, schedule), n)
    ensures |Run(Launch(total), n, schedule).threads| == total
    decreases |schedule|
  {
    if schedule == [] {
      LaunchIsConsistent(total, n);
    } else {
      var before := schedule[..|schedule| - 1];
      EveryRunIsConsistent(total, n, before);
      StepKeepsConsistent(Run(Launch(total), n, before), n, schedule[|schedule| - 1]);
    }
  }

  // ---------------------------------------------------------------------------
  // Exactly once: when, and only when
  // ---------------------------------------------------------------------------

  ghost predicate Distinct(log: seq<u32>) {
    forall a, b | 0 <= a < b < |log| :: log[a] != log[b]
  }

  /** Every index below `n` appears in the log exactly once, and nothing else appears. */
  ghost predicate ExactlyOnce(log: seq<u32>, n: u32) {
    && (forall j: u32 :: j in log <==> j < n)
    && Distinct(log)
  }

  /** The condition a launch can be checked against: no index register wraps past `n`. */
  predicate StrideFits(total: nat, n: u32) {
    n == 0 || n + total <= WORD
  }

  lemma SmallVisit(total: nat, t: nat, k: nat)
    requires t + k * total < WORD
    ensures Visit(total, t, k) == t + k * total
  {
  }

  lemma {:induction false} NoVisitWraps(g: Grid, n: u32, t: nat, k: nat)
    requires Consistent(g, n) && StrideFits(|g.threads|, n) && Visited(g, t, k)
    ensures t + k * |g.threads| < n && Visit(|g.threads|, t, k) == t + k * |g.threads|
    decreases k
  {
    var total := |g.threads|;
    assert Visit(total, t, k) < n;
    if k == 0 {
      assert t + 0 * total == t;
    } else {
      NoVisitWraps(g, n, t, k - 1);
      assert t + k * total == t + (k - 1) * total + total;
    }
    SmallVisit(total, t, k);
  }

  lemma MultiplyKeepsOrder(a: nat, b: nat, c: nat)
    requires a <= b
    ensures a * c <= b * c
  {
    assert (b - a) * c >= 0;
    assert (b - a) * c == b * c - a * c;
  }

  /** A later turn of any thread is further along. */
  lemma LaterTurnIsFurther(total: nat, t: nat, k: nat, t': nat, k': nat)
    requires t < total && k < k'
    ensures t + k * total < t' + k' * total
  {
    MultiplyKeepsOrder(k + 1, k', total);
    assert (k + 1) * total == k * total + total;
  }

  /** A finished thread has visited every index it came to before the first one out of range. */
  lemma FinishedThreadVisited(g: Grid, n: u32, t: nat, k: nat)
    requires Consistent(g, n) && Complete(g) && t < |g.threads|
    requires forall k' | 0 <= k' <= k :: Visit(|g.threads|, t, k') < n
    ensures Visited(g, t, k)
  {
    assert g.threads[t].done;
    assert !(Visit(|g.threads|, t, g.threads[t].turns) < n);
  }

  /** Every number is one turn of one thread. */
  lemma Coordinates(total: nat, j: nat) returns (t: nat, k: nat)
    requires total >= 1
    ensures t < total && t + k * total == j
  {
    t, k := j % total, j / total;
  }

  /** The thread that owns index `j` has visited it. */
  lemma OwnerVisited(g: Grid, n: u32, j: u32) returns (t: nat, k: nat)
    requires Consistent(g, n) && Complete(g) && j < n && |g.threads| >= 1
    ensures t < |g.threads| && t + k * |g.threads| == j
    ensures Visited(g, t, k) && Visit(|g.threads|, t, k) == j
  {
    var total := |g.threads|;
    t, k := Coordinates(total, j);
    forall k' | 0 <= k' <= k ensures Visit(total, t, k') < n {
      MultiplyKeepsOrder(k', k, total);
      SmallVisit(total, t, k');
    }
    FinishedThreadVisited(g, n, t, k);
  }

  /** Without wrapping, no two visits meet at one index. */
  lemma FittingVisitsDiffer(g: Grid, n: u32, j: u32, t: nat, k: nat, t': nat, k': nat)
    requires Consistent(g, n) && StrideFits(|g.threads|, n)
    ensures !SameVisit(g, j, t, k, t', k')
  {
    if SameVisit(g, j, t, k, t', k') {
      NoVisitWraps(g, n, t, k);
      NoVisitWraps(g, n, t', k');
      if k < k' {
        LaterTurnIsFurther(|g.threads|, t, k, t', k');
      } else if k' < k {
        LaterTurnIsFurther(|g.threads|, t', k', t, k);
      }
    }
  }

  lemma FittingLogIsDistinct(g: Grid, n: u32)
    requires Consistent(g, n) && StrideFits(|g.threads|, n)
    ensures Distinct(g.log)
  {
    forall a, b | 0 <= a < b < |g.log| ensures g.log[a] != g.log[b] {
      var j := g.log[a];
      forall t, k, t', k' ensures !SameVisit(g, j, t, k, t', k') {
        FittingVisitsDiffer(g, n, j, t, k, t', k');
      }
      assert !VisitedTwice(g, j);
      assert !Twice(g.log, j);
    }
  }

  /** Fitting strides: a finished run has visited every index exactly once. */
  lemma FittingRunIsExact(g: Grid, n: u32)
    requires Consistent(g, n) && Complete(g) && |g.threads| >= 1
    requires StrideFits(|g.threads|, n)
    ensures ExactlyOnce(g.log, n)
  {
    forall j: u32 ensures j in g.log <==> j < n {
      if j in g.log {
        assert VisitedOnce(g, j);
      }
      if j < n {
        var t, k := OwnerVisited(g, n, j);
      }
    }
    FittingLogIsDistinct(g, n);
  }

  /** One turn beyond its last index in range, a wrapping register is in range again. */
  lemma WrappedVisit(total: nat, n: u32, t: nat, k: nat)
    requires 1 <= total < WORD < n + total && t + k * total == n - 1
    ensures Visit(total, t, k + 1) == n - 1 + total - WORD < n - 1
    ensures forall k' | 0 <= k' <= k + 1 :: Visit(total, t, k') < n
  {
    assert t + (k + 1) * total == n - 1 + total;
    forall k' | 0 <= k' <= k ensures Visit(total, t, k') < n {
      assert 0 <= k' * total <= k * total;
    }
  }

  /** A stride that does not fit: the thread of index `n - 1` comes round again. */
  lemma WrappingRunRepeats(g: Grid, n: u32)
    requires Consistent(g, n) && Complete(g)
    requires 1 <= |g.threads| < WORD < n + |g.threads|
    ensures !Distinct(g.log)
  {
    var total := |g.threads|;
    var t, k := Coordinates(total, n - 1);
    WrappedVisit(total, n, t, k);
    FinishedThreadVisited(g, n, t, k + 1);
    var j := Visit(total, t, k + 1);
    var t', k' := OwnerVisited(g, n, j);
    if k < k' {
      LaterTurnIsFurther(total, t, k, t', k');
    }
    RepeatIsLogged(g, n, j, t, k + 1, t', k');
  }

  lemma RepeatIsLogged(g: Grid, n: u32, j: u32, t: nat, k: nat, t': nat, k': nat)
    requires Consistent(g, n) && SameVisit(g, j, t, k, t', k')
    ensures Twice(g.log, j)
  {
    assert VisitedTwice(g, j);
  }

  lemma FullStrideStays(k: nat)
    ensures Visit(WORD, 0, k) == 0
  {
    ModIgnoresMultiples(0, k);
  }

  lemma ModIgnoresMultiples(x: int, q: int)
    ensures Wrap(x + q * WORD) == Wrap(x)
  {
  }

  lemma FirstVisit(total: nat, t: nat)
    ensures Visit(total, t, 0) == Wrap(t)
  {
    assert t + 0 * total == t;
  }

  /** More threads than words: two of them start at the same index, or none ever moves on. */
  lemma OversizedRunRepeats(g: Grid, n: u32)
    requires Consistent(g, n) && Complete(g)
    requires |g.threads| >= WORD && n > 0
    ensures !Distinct(g.log)
  {
    var total := |g.threads|;
    assert g.threads[0].done && Visit(total, 0, g.threads[0].turns) >= n;
    if total == WORD {
      FullStrideStays(g.threads[0].turns);
    } else {
      FirstVisit(total, 0);
      FirstVisit(total, WORD);
      FinishedThreadVisited(g, n, 0, 0);
      FinishedThreadVisited(g, n, WORD, 0);
      RepeatIsLogged(g, n, 0, 0, 0, WORD, 0);
    }
  }

  /** For every interleaving that ends, the launch visits each index exactly once
      if and only if its stride fits. */
  lemma ExactlyOnceIffStrideFits(total: nat, n: u32, schedule: seq<nat>)
    requires total >= 1
    requires Complete(Run(Launch(total), n, schedule))
    ensures ExactlyOnce(Run(Launch(total), n, schedule).log, n) <==> StrideFits(total, n)
  {
    var g := Run(Launch(total), n, schedule);
    EveryRunIsConsistent(total, n, schedule);
    if StrideFits(total, n) {
      FittingRunIsExact(g, n);
    } else if total < WORD {
      WrappingRunRepeats(g, n);
    } else {
      OversizedRunRepeats(g, n);
    }
  }

  // ---------------------------------------------------------------------------
  // Every schedule gets there
  // ---------------------------------------------------------------------------

  function DoneCount(threads: seq<Thread>): nat {
    if threads == [] then 0 else (if threads[0].done then 1 else 0) + DoneCount(threads[1..])
  }

  lemma {:induction false} DoneCountAfter(threads: seq<Thread>, t: nat, th: Thread)
    requires t < |threads| && !threads[t].done
    ensures DoneCount(threads[t := th]) == DoneCount(threads) + if th.done then 1 else 0
    decreases |threads|
  {
    if t > 0 {
      assert threads[t := th][1..] == threads[1..][t - 1 := th];
      DoneCountAfter(threads[1..], t - 1, th);
    } else {
      assert threads[t := th][1..] == threads[1..];
    }
  }

  lemma {:induction false} DoneCountBound(threads: seq<Thread>)
    ensures DoneCount(threads) <= |threads|
    ensures DoneCount(threads) == |threads| ==> forall t | 0 <= t < |threads| :: threads[t].done
    decreases |threads|
  {
    if threads != [] {
      DoneCountBound(threads[1..]);
      assert forall t | 1 <= t < |threads| :: threads[t] == threads[1..][t - 1];
    }
  }

  predicate Live(g: Grid, t: nat) {
    t < |g.threads| && !g.threads[t].done
  }

  /** What a live step uses up. */
  function Progress(g: Grid): nat {
    |g.log| + DoneCount(g.threads)
  }

  lemma LiveStepProgresses(g: Grid, n: u32, t: nat)
    requires Live(g, t)
    ensures Progress(Step(g, n, t)) == Progress(g) + 1
  {
    var th := g.threads[t];
    DoneCountAfter(g.threads, t, th.(done := true));
    DoneCountAfter(g.threads, t, Thread(AddU32(th.i, Wrap(|g.threads|)), th.turns + 1, false));
  }

  lemma {:induction false} DistinctEntriesFit(log: seq<u32>, n: nat)
    requires Distinct(log)
    requires forall i | 0 <= i < |log| :: log[i] < n
    ensures |log| <= n
    decreases n
  {
    assert |log| > 0 ==> log[0] < n;
    if n == 0 {
    } else if exists i :: 0 <= i < |log| && log[i] == n - 1 {
      var i :| 0 <= i < |log| && log[i] == n - 1;
      DistinctEntriesFit(log[..i] + log[i + 1..], n - 1);
    } else {
      DistinctEntriesFit(log, n - 1);
    }
  }

  lemma FittingProgressIsBounded(g: Grid, n: u32)
    requires Consistent(g, n) && StrideFits(|g.threads|, n)
    ensures Progress(g) <= n + |g.threads|
  {
    FittingLogIsDistinct(g, n);
    forall i | 0 <= i < |g.log| ensures g.log[i] < n {
      assert g.log[i] in g.log;
      assert VisitedOnce(g, g.log[i]);
    }
    DistinctEntriesFit(g.log, n);
    DoneCountBound(g.threads);
  }

  /** The scheduler never names a finished thread. */
  ghost predicate Busy(total: nat, n: u32, schedule: seq<nat>) {
    forall i | 0 <= i < |schedule| :: Live(Run(Launch(total), n, schedule[..i]), schedule[i])
  }

  /** However the threads interleave, the kernel is over after `n + total` live steps,
      and until then some thread can move. */
  lemma {:induction false} EveryBusyScheduleEnds(total: nat, n: u32, schedule: seq<nat>)
    requires StrideFits(total, n) && Busy(total, n, schedule)
    ensures Progress(Run(Launch(total), n, schedule)) == |schedule| + Progress(Launch(total))
    ensures |schedule| <= n + total
    ensures (exists t :: Live(Run(Launch(total), n, schedule), t)) || Complete(Run(Launch(total), n, schedule))
    decreases |schedule|
  {
    var g := Run(Launch(total), n, schedule);
    if schedule != [] {
      var m := |schedule| - 1;
      var before := schedule[..m];
      assert Busy(total, n, before) by {
        forall i | 0 <= i < m ensures Live(Run(Launch(total), n, before[..i]), before[i]) {
          assert before[..i] == schedule[..i];
        }
      }
      EveryBusyScheduleEnds(total, n, before);
      assert Live(Run(Launch(total), n, schedule[..m]), schedule[m]);
      LiveStepProgresses(Run(Launch(total), n, before), n, schedule[m]);
    }
    EveryRunIsConsistent(total, n, schedule);
    FittingProgressIsBounded(g, n);
    if !Complete(g) {
      var t :| 0 <= t < |g.threads| && !g.threads[t].done;
      assert Live(g, t);
    }
  }

  // ---------------------------------------------------------------------------
  // The launches of the program
  // ---------------------------------------------------------------------------

  const BLOCK_THREADS := 256
  const FULL_GRID_BLOCKS := 256
  const STRESS_ELEMENTS := 4194304
  const VERIFY_ELEMENTS := 4096

  /** Python's `round`, to the nearest integer and half to even. */
  function RoundHalfEven(x: real): int {
    var below := x.Floor;
    var rest := x - below as real;
    if rest < 0.5 || (rest == 0.5 && below % 2 == 0) then below else below + 1
  }

  /** `RampStage.grid_blocks` and `RampStage.elements` */
  function GridBlocks(fraction: real): int {
    var blocks := RoundHalfEven(FULL_GRID_BLOCKS as real * fraction);
    if blocks < 1 then 1 else blocks
  }

  function Elements(fraction: real): int
    requires fraction >= 0.0
  {
    var elements := (STRESS_ELEMENTS as real * fraction).Floor;
    if elements < VERIFY_ELEMENTS then VERIFY_ELEMENTS else elements
  }

  /** A stage of the ramp loads at most the whole grid. */
  predicate IsFraction(fraction: real) {
    0.0 < fraction <= 1.0
  }

  /** A launch of the program: the sanity check, a stress stage, or the comparison of its copies. */
  ghost predicate IsLaunch(blocks: int, n: int) {
    || (blocks == FULL_GRID_BLOCKS && n == VERIFY_ELEMENTS)
    || exists fraction | IsFraction(fraction) :: IsStage(fraction, blocks, n)
  }

  predicate IsStage(fraction: real, blocks: int, n: int)
    requires IsFraction(fraction)
  {
    n == Elements(fraction) && (blocks == GridBlocks(fraction) || blocks == FULL_GRID_BLOCKS)
  }

  lemma StageIsBounded(fraction: real)
    requires IsFraction(fraction)
    ensures 1 <= GridBlocks(fraction) <= FULL_GRID_BLOCKS
    ensures VERIFY_ELEMENTS <= Elements(fraction) <= STRESS_ELEMENTS
  {
    assert FULL_GRID_BLOCKS as real * fraction <= 256.0;
    assert STRESS_ELEMENTS as real * fraction <= 4194304.0;
  }

  /** A stage takes its share of 256 blocks, to the nearest, halves to the even one, but at least one; and its
      share of 4194304 elements, rounded down, but at least 4096. */
  lemma StageInNumbers(fraction: real)
    requires 0.0 < fraction <= 1.0
    ensures 256.0 * fraction <= 0.5 ==> GridBlocks(fraction) == 1
    ensures 256.0 * fraction > 0.5 ==>
      var off := 256.0 * fraction - GridBlocks(fraction) as real;
      -0.5 <= off <= 0.5 && (off == 0.5 || off == -0.5 ==> GridBlocks(fraction) % 2 == 0)
    ensures 4194304.0 * fraction < 4096.0 ==> Elements(fraction) == 4096
    ensures 4194304.0 * fraction >= 4096.0 ==>
      Elements(fraction) as real <= 4194304.0 * fraction < Elements(fraction) as real + 1.0
    ensures IsLaunch(GridBlocks(fraction), Elements(fraction)) && IsLaunch(256, Elements(fraction))
    ensures IsLaunch(256, 4096)
  {
    assert IsFraction(fraction) && IsStage(fraction, GridBlocks(fraction), Elements(fraction));
    assert IsStage(fraction, 256, Elements(fraction));
  }

  /** No launch of the program lets an index register wrap. */
  lemma LaunchesFit(blocks: int, n: int)
    requires IsLaunch(blocks, n)
    ensures 1 <= blocks <= FULL_GRID_BLOCKS && 0 < n < WORD && StrideFits(blocks * BLOCK_THREADS, n)
  {
    if !(blocks == FULL_GRID_BLOCKS && n == VERIFY_ELEMENTS) {
      var fraction :| IsFraction(fraction) && IsStage(fraction, blocks, n);
      StageIsBounded(fraction);
    }
  }

  /** `mad.lo` of block, block size and thread gives the threads of a grid the flat numbers they
      have in the model. */
  lemma BlockIndexIsFlat(blocks: nat, t: nat)
    requires t < blocks * BLOCK_THREADS
    ensures MadLo(Wrap(t / BLOCK_THREADS), BLOCK_THREADS, t % BLOCK_THREADS)
         == Launch(blocks * BLOCK_THREADS).threads[t].i
  {
    var q := t / BLOCK_THREADS / WORD;
    assert t / BLOCK_THREADS == Wrap(t / BLOCK_THREADS) + q * WORD;
    var low := Wrap(t / BLOCK_THREADS) * BLOCK_THREADS + t % BLOCK_THREADS;
    assert t == low + (q * BLOCK_THREADS) * WORD;
    ModIgnoresMultiples(low, q * BLOCK_THREADS);
  }

  // ---------------------------------------------------------------------------
  // brute_force_kernel: what the stores leave
  // ---------------------------------------------------------------------------

  /** The stores of the visits in `log`, in their order: `out_x` and `out_y` together. */
  function Stores(memory: map<int, Pair>, log: seq<u32>, rounds: nat, seed0: u32, seed1: u32): map<int, Pair> {
    if log == [] then memory
    else
      var j := log[|log| - 1];
      Stores(memory, log[..|log| - 1], rounds, seed0, seed1)[j := Reference(j, rounds, seed0, seed1)]
  }

  lemma {:induction false} StoresByIndex(memory: map<int, Pair>, log: seq<u32>, rounds: nat, seed0: u32, seed1: u32)
    ensures var after := Stores(memory, log, rounds, seed0, seed1);
      && (forall j :: j in after <==> j in memory || j in log)
      && (forall j: u32 | j in log :: after[j] == Reference(j, rounds, seed0, seed1))
      && (forall j | j in memory && j !in log :: after[j] == memory[j])
    decreases |log|
  {
    if log != [] {
      var before, last := log[..|log| - 1], log[|log| - 1];
      StoresByIndex(memory, before, rounds, seed0, seed1);
      assert log == before + [last];
    }
  }

  /** Every element below `n` holds the reference value, every other address is as before. */
  ghost predicate HoldsReference(before: map<int, Pair>, after: map<int, Pair>, n: u32,
                                 rounds: nat, seed0: u32, seed1: u32)
  {
    && (forall j: u32 | j < n :: j in after && after[j] == Reference(j, rounds, seed0, seed1))
    && (forall j | j in before && !(0 <= j < n) :: j in after && after[j] == before[j])
    && (forall j | j in after :: j in before || 0 <= j < n)
  }

  lemma FittingStoresHoldReference(total: nat, n: u32, schedule: seq<nat>, memory: map<int, Pair>,
                                   rounds: nat, seed0: u32, seed1: u32)
    requires total >= 1 && StrideFits(total, n)
    requires Complete(Run(Launch(total), n, schedule))
    ensures HoldsReference(memory, Stores(memory, Run(Launch(total), n, schedule).log, rounds, seed0, seed1),
                           n, rounds, seed0, seed1)
  {
    var log := Run(Launch(total), n, schedule).log;
    ExactlyOnceIffStrideFits(total, n, schedule);
    StoresByIndex(memory, log, rounds, seed0, seed1);
    assert forall j: int :: j in log <==> 0 <= j < n by {
      forall j: int ensures j in log <==> 0 <= j < n {
        if 0 <= j < n {
          var w: u32 := j;
          assert w in log;
        }
      }
    }
  }

  /** However the threads of a launch of the program interleave, once all of them are done the
      memory holds the reference value at every element and is untouched elsewhere. */
  lemma BruteForceMatchesReference(blocks: nat, n: u32, schedule: seq<nat>, memory: map<int, Pair>,
                                   rounds: nat, seed0: u32, seed1: u32)
    requires IsLaunch(blocks, n)
    requires Complete(Run(Launch(blocks * BLOCK_THREADS), n, schedule))
    ensures HoldsReference(memory,
                           Stores(memory, Run(Launch(blocks * BLOCK_THREADS), n, schedule).log, rounds, seed0, seed1),
                           n, rounds, seed0, seed1)
  {
    LaunchesFit(blocks, n);
    FittingStoresHoldReference(blocks * BLOCK_THREADS, n, schedule, memory, rounds, seed0, seed1);
  }

  lemma StoresOneMore(memory: map<int, Pair>, log: seq<u32>, j: u32, rounds: nat, seed0: u32, seed1: u32)
    ensures Stores(memory, log + [j], rounds, seed0, seed1)
         == Stores(memory, log, rounds, seed0, seed1)[j := Reference(j, rounds, seed0, seed1)]
  {
    assert (log + [j])[..|log|] == log;
  }

  /** What the thread does between two loop heads of `LOOP_I`: nothing when it is out of range, else
      the rounds and the stores at its index. */
  method StoreVisit(g: Grid, n: u32, t: nat, memory: map<int, Pair>, now: map<int, Pair>,
                    rounds: u32, seed0: u32, seed1: u32) returns (after: map<int, Pair>)
    requires now == Stores(memory, g.log, rounds, seed0, seed1)
    ensures after == Stores(memory, Step(g, n, t).log, rounds, seed0, seed1)
  {
    after := now;
    if t < |g.threads| && !g.threads[t].done && g.threads[t].i < n {
      var index := g.threads[t].i;
      var r11, r12 := KernelBody(index, rounds, seed0, seed1);
      after := after[index := Pair(r11, r12)];
      StoresOneMore(memory, g.log, index, rounds, seed0, seed1);
    }
  }

  lemma RunOneMore(g: Grid, n: u32, schedule: seq<nat>, m: nat)
    requires m < |schedule|
    ensures Run(g, n, schedule[..m + 1]) == Step(Run(g, n, schedule[..m]), n, schedule[m])
  {
    assert schedule[..m + 1][..m] == schedule[..m];
  }

  /** `brute_force_kernel` on a grid, as the scheduler moves its threads. */
  method RunBruteForce(start: Grid, n: u32, schedule: seq<nat>, memory: map<int, Pair>,
                       rounds: u32, seed0: u32, seed1: u32) returns (after: map<int, Pair>)
    requires start.log == []
    ensures after == Stores(memory, Run(start, n, schedule).log, rounds, seed0, seed1)
  {
    var g := start;
    after := memory;
    for m := 0 to |schedule|
      invariant g == Run(start, n, schedule[..m])
      invariant after == Stores(memory, g.log, rounds, seed0, seed1)
    {
      after := StoreVisit(g, n, schedule[m], memory, after, rounds, seed0, seed1);
      g := Step(g, n, schedule[m]);
      RunOneMore(start, n, schedule, m);
    }
    assert schedule[..|schedule|] == schedule;
  }

  /** A launch of the program, from an interleaving in which every thread gets to its end. */
  method LaunchBruteForce(blocks: nat, n: u32, schedule: seq<nat>, memory: map<int, Pair>,
                          rounds: u32, seed0: u32, seed1: u32) returns (after: map<int, Pair>)
    requires IsLaunch(blocks, n) && Complete(Run(Launch(blocks * BLOCK_THREADS), n, schedule))
    ensures HoldsReference(memory, after, n, rounds, seed0, seed1)
  {
    after := RunBruteForce(Launch(blocks * BLOCK_THREADS), n, schedule, memory, rounds, seed0, seed1);
    BruteForceMatchesReference(blocks, n, schedule, memory, rounds, seed0, seed1);
  }

  // ---------------------------------------------------------------------------
  // compare_u32_kernel and _count_mismatches
  // ---------------------------------------------------------------------------

  /** The atomic counter after the visits in `log`. */
  function Counter(log: seq<u32>, lhs: seq<u32>, rhs: seq<u32>): u32
    requires forall i | 0 <= i < |log| :: log[i] < |lhs| && log[i] < |rhs|
  {
    if log == [] then 0
    else
      var j := log[|log| - 1];
      var before := Counter(log[..|log| - 1], lhs, rhs);
      if lhs[j] != rhs[j] then AddU32(before, 1) else before
  }

  function Differing(n: nat, lhs: seq<u32>, rhs: seq<u32>): set<int>
    requires n <= |lhs| && n <= |rhs|
  {
    set j | 0 <= j < n && lhs[j] != rhs[j]
  }

  ghost function DifferingIn(log: seq<u32>, lhs: seq<u32>, rhs: seq<u32>): set<int>
    requires forall i | 0 <= i < |log| :: log[i] < |lhs| && log[i] < |rhs|
  {
    set i | 0 <= i < |log| && lhs[log[i]] != rhs[log[i]] :: log[i]
  }

  /** A fresh index adds itself to the differing set exactly when its elements differ. */
  lemma DifferingGrows(before: seq<u32>, j: u32, lhs: seq<u32>, rhs: seq<u32>)
    requires j < |lhs| && j < |rhs|
    requires forall i | 0 <= i < |before| :: before[i] < |lhs| && before[i] < |rhs|
    requires j !in before
    ensures |DifferingIn(before + [j], lhs, rhs)|
         == |DifferingIn(before, lhs, rhs)| + if lhs[j] != rhs[j] then 1 else 0
  {
    var old', new' := DifferingIn(before, lhs, rhs), DifferingIn(before + [j], lhs, rhs);
    assert j !in old';
    var log := before + [j];
    assert forall i | 0 <= i < |before| :: log[i] == before[i];
    assert log[|before|] == j;
    assert new' == old' + if lhs[j] != rhs[j] then {j as int} else {};
  }

  lemma {:induction false} CounterOneMore(log: seq<u32>, before: seq<u32>, lhs: seq<u32>, rhs: seq<u32>)
    requires log != [] && log[..|log| - 1] == before
    requires forall i | 0 <= i < |log| :: log[i] < |lhs| && log[i] < |rhs|
    requires forall i | 0 <= i < |before| :: before[i] < |lhs| && before[i] < |rhs|
    ensures var j := log[|log| - 1];
      Counter(log, lhs, rhs)
      == if lhs[j] != rhs[j] then AddU32(Counter(before, lhs, rhs), 1) else Counter(before, lhs, rhs)
  {
  }

  /** Below the word limit the atomic addition does not wrap. */
  lemma {:induction false} CounterAfterVisit(before: seq<u32>, j: u32, lhs: seq<u32>, rhs: seq<u32>)
    requires j < |lhs| && j < |rhs|
    requires forall i | 0 <= i < |before| :: before[i] < |lhs| && before[i] < |rhs|
    requires Counter(before, lhs, rhs) <= |before| < WORD - 1
    ensures Counter(before + [j], lhs, rhs) == Counter(before, lhs, rhs) + if lhs[j] != rhs[j] then 1 else 0
  {
    var log := before + [j];
    assert log[..|log| - 1] == before;
    CounterOneMore(log, before, lhs, rhs);
    WrapOfWord(Counter(before, lhs, rhs) + 1);
  }

  lemma {:induction false} CounterCountsOnce(log: seq<u32>, lhs: seq<u32>, rhs: seq<u32>)
    requires forall i | 0 <= i < |log| :: log[i] < |lhs| && log[i] < |rhs|
    requires Distinct(log) && |log| < WORD
    ensures Counter(log, lhs, rhs) == |DifferingIn(log, lhs, rhs)| <= |log|
    decreases |log|
  {
    if log == [] {
      assert DifferingIn(log, lhs, rhs) == {};
    } else {
      var before, j := log[..|log| - 1], log[|log| - 1];
      assert log == before + [j];
      CounterCountsOnce(before, lhs, rhs);
      DifferingGrows(before, j, lhs, rhs);
      CounterAfterVisit(before, j, lhs, rhs);
    }
  }

  lemma FittingCompareCounts(total: nat, schedule: seq<nat>, lhs: seq<u32>, rhs: seq<u32>)
    requires total >= 1 && |lhs| == |rhs| < WORD && StrideFits(total, |lhs|)
    requires Complete(Run(Launch(total), |lhs|, schedule))
    ensures var log := Run(Launch(total), |lhs|, schedule).log;
      && (forall i | 0 <= i < |log| :: log[i] < |lhs|)
      && Counter(log, lhs, rhs) == |Differing(|lhs|, lhs, rhs)|
      && (Counter(log, lhs, rhs) == 0 <==> lhs == rhs)
  {
    var n := |lhs|;
    var log := Run(Launch(total), n, schedule).log;
    ExactlyOnceIffStrideFits(total, n, schedule);
    forall i | 0 <= i < |log| ensures log[i] < n {
      assert log[i] in log;
    }
    DistinctEntriesFit(log, n);
    CounterCountsOnce(log, lhs, rhs);
    forall j | j in Differing(n, lhs, rhs) ensures j in DifferingIn(log, lhs, rhs) {
      var w: u32 := j;
      assert w in log;
    }
    assert Differing(n, lhs, rhs) == DifferingIn(log, lhs, rhs);
    if lhs != rhs {
      var j :| 0 <= j < n && lhs[j] != rhs[j];
      assert j in Differing(n, lhs, rhs);
    }
  }

  /** However the threads of a compare launch of the program interleave: the counter is the number
      of differing positions. */
  lemma CompareCountsDifferences(blocks: nat, schedule: seq<nat>, lhs: seq<u32>, rhs: seq<u32>)
    requires |lhs| == |rhs| && IsLaunch(blocks, |lhs|)
    requires |lhs| < WORD && Complete(Run(Launch(blocks * BLOCK_THREADS), |lhs|, schedule))
    ensures var log := Run(Launch(blocks * BLOCK_THREADS), |lhs|, schedule).log;
      && (forall i | 0 <= i < |log| :: log[i] < |lhs|)
      && Counter(log, lhs, rhs) == |Differing(|lhs|, lhs, rhs)|
      && (Counter(log, lhs, rhs) == 0 <==> lhs == rhs)
  {
    LaunchesFit(blocks, |lhs|);
    FittingCompareCounts(blocks * BLOCK_THREADS, schedule, lhs, rhs);
  }

  /** One redundant pair, with the interleaving its compare launch happened to take. */
  datatype Copies = Copies(name: string, lhs: seq<u32>, rhs: seq<u32>, schedule: seq<nat>)

  /** The two copies come out of buffers of one size, counted in a 32-bit word. */
  type Compare = c: Copies | |c.lhs| == |c.rhs| < WORD witness Copies("", [], [], [])

  ghost predicate Finishes(pair: Compare, blocks: nat) {
    IsLaunch(blocks, |pair.lhs|) && Complete(Run(Launch(blocks * BLOCK_THREADS), |pair.lhs|, pair.schedule))
  }

  /** The pairs whose copies differ, in order, each with its number of differences. */
  function Mismatches(pairs: seq<Compare>): seq<(string, int)> {
    if pairs == [] then []
    else
      var p := pairs[|pairs| - 1];
      Mismatches(pairs[..|pairs| - 1]) +
      if p.lhs == p.rhs then [] else [(p.name, |Differing(|p.lhs|, p.lhs, p.rhs)|)]
  }

  ghost predicate IsMismatch(p: Compare, name: string, count: int) {
    && p.name == name && p.lhs != p.rhs
    && count == |set k | 0 <= k < |p.lhs| && p.lhs[k] != p.rhs[k]|
  }

  lemma {:induction false} MismatchesAre(pairs: seq<Compare>, name: string, count: int)
    ensures (name, count) in Mismatches(pairs) <==> exists i :: 0 <= i < |pairs| && IsMismatch(pairs[i], name, count)
    decreases |pairs|
  {
    if pairs != [] {
      var n := |pairs| - 1;
      var before, p := pairs[..n], pairs[n];
      MismatchesAre(before, name, count);
      assert Differing(|p.lhs|, p.lhs, p.rhs) == set k | 0 <= k < |p.lhs| && p.lhs[k] != p.rhs[k];
      if i :| 0 <= i < |pairs| && IsMismatch(pairs[i], name, count) {
        assert i < n ==> IsMismatch(before[i], name, count);
      }
      if i :| 0 <= i < n && IsMismatch(before[i], name, count) {
        assert IsMismatch(pairs[i], name, count);
      }
    }
  }

  lemma EveryMismatch(pairs: seq<Compare>)
    ensures forall name, count ::
      (name, count) in Mismatches(pairs) <==> exists i :: 0 <= i < |pairs| && IsMismatch(pairs[i], name, count)
  {
    forall name, count
      ensures (name, count) in Mismatches(pairs)
         <==> exists i :: 0 <= i < |pairs| && IsMismatch(pairs[i], name, count)
    {
      MismatchesAre(pairs, name, count);
    }
  }

  lemma MismatchesOneMore(pairs: seq<Compare>, i: nat)
    requires i < |pairs|
    ensures var p := pairs[i];
      Mismatches(pairs[..i + 1])
      == Mismatches(pairs[..i]) + if p.lhs == p.rhs then [] else [(p.name, |Differing(|p.lhs|, p.lhs, p.rhs)|)]
  {
    assert pairs[..i + 1][..i] == pairs[..i] && pairs[..i + 1] == pairs[..i] + [pairs[i]];
  }

  lemma {:induction false} NoneMismatches(pairs: seq<Compare>)
    ensures Mismatches(pairs) == [] <==> forall i | 0 <= i < |pairs| :: pairs[i].lhs == pairs[i].rhs
    decreases |pairs|
  {
    if pairs != [] {
      var n := |pairs| - 1;
      var before := pairs[..n];
      NoneMismatches(before);
      assert forall i | 0 <= i < n :: before[i] == pairs[i];
    }
  }

  /** `_count_mismatches` on a grid of `blocks` blocks. */
  method CountMismatches(pairs: seq<Compare>, blocks: nat) returns (found: seq<(string, int)>)
    requires forall i | 0 <= i < |pairs| :: Finishes(pairs[i], blocks)
    ensures found == Mismatches(pairs)
    ensures found == [] <==> forall i | 0 <= i < |pairs| :: pairs[i].lhs == pairs[i].rhs
    ensures forall name, count ::
      (name, count) in found <==> exists i :: 0 <= i < |pairs| && IsMismatch(pairs[i], name, count)
  {
    found := [];
    for i := 0 to |pairs|
      invariant found == Mismatches(pairs[..i])
    {
      var p := pairs[i];
      MismatchesOneMore(pairs, i);
      CompareCountsDifferences(blocks, p.schedule, p.lhs, p.rhs);
      var count := Counter(Run(Launch(blocks * BLOCK_THREADS), |p.lhs|, p.schedule).log, p.lhs, p.rhs);
      if count != 0 {
        found := found + [(p.name, count)];
      }
    }
    assert pairs[..|pairs|] == pairs;
    NoneMismatches(pairs);
    EveryMismatch(pairs);
  }
}

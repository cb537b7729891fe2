/**
 * The arithmetic helpers of unittests/test_atomic.c: the xoshiro128** 1.1 generator
 * (`rand_rotl`, `rand_next`, `rand_int_range`) over 32-bit words, and the timespec
 * conversions in the Windows `nanosleep`, `clock_gettime` and `clock_getres`
 * replacements. The Windows calls become parameters: whether a call succeeded, and
 * the counter and frequency values it reported.
 */
module TestAtomic {
  import opened Wrappers

  /** The generator's state `rand_state_t`: four 32-bit words. */
  datatype State = State(s0: bv32, s1: bv32, s2: bv32, s3: bv32)

  const ZERO_STATE := State(0, 0, 0, 0)

  /** The state held in a four-word array. */
  function StateOf(a: seq<bv32>): State
    requires |a| == 4
  {
    State(a[0], a[1], a[2], a[3])
  }

  /**
   * `rand_rotl`: `x` rotated left by `k` bits, built from two shifts. The C `int k`
   * is a 32-bit word here, so that each distance is a bit-vector literal.
   */
  function Rotl(x: bv32, k: bv32): (r: bv32)
    requires 0 < k < 32
    ensures k == 7 ==> r == x.RotateLeft(7)
    ensures k == 11 ==> r == x.RotateLeft(11)
  {
    (x << k) | (x >> (32 - k))
  }

  /** At every distance from 1 to 31 the two shifts make a left rotation. */
  lemma RotlIsRotation(x: bv32)
    ensures Rotl(x, 1) == x.RotateLeft(1)
    ensures Rotl(x, 2) == x.RotateLeft(2)
    ensures Rotl(x, 3) == x.RotateLeft(3)
    ensures Rotl(x, 4) == x.RotateLeft(4)
    ensures Rotl(x, 5) == x.RotateLeft(5)
    ensures Rotl(x, 6) == x.RotateLeft(6)
    ensures Rotl(x, 7) == x.RotateLeft(7)
    ensures Rotl(x, 8) == x.RotateLeft(8)
    ensures Rotl(x, 9) == x.RotateLeft(9)
    ensures Rotl(x, 10) == x.RotateLeft(10)
    ensures Rotl(x, 11) == x.RotateLeft(11)
    ensures Rotl(x, 12) == x.RotateLeft(12)
    ensures Rotl(x, 13) == x.RotateLeft(13)
    ensures Rotl(x, 14) == x.RotateLeft(14)
    ensures Rotl(x, 15) == x.RotateLeft(15)
    ensures Rotl(x, 16) == x.RotateLeft(16)
    ensures Rotl(x, 17) == x.RotateLeft(17)
    ensures Rotl(x, 18) == x.RotateLeft(18)
    ensures Rotl(x, 19) == x.RotateLeft(19)
    ensures Rotl(x, 20) == x.RotateLeft(20)
    ensures Rotl(x, 21) == x.RotateLeft(21)
    ensures Rotl(x, 22) == x.RotateLeft(22)
    ensures Rotl(x, 23) == x.RotateLeft(23)
    ensures Rotl(x, 24) == x.RotateLeft(24)
    ensures Rotl(x, 25) == x.RotateLeft(25)
    ensures Rotl(x, 26) == x.RotateLeft(26)
    ensures Rotl(x, 27) == x.RotateLeft(27)
    ensures Rotl(x, 28) == x.RotateLeft(28)
    ensures Rotl(x, 29) == x.RotateLeft(29)
    ensures Rotl(x, 30) == x.RotateLeft(30)
    ensures Rotl(x, 31) == x.RotateLeft(31)
  {
  }

  /** The result of `rand_next`: the scrambler applied to the second word of the state before the step. */
  function Output(s: State): bv32
  {
    Rotl(s.s1 * 5, 7) * 9
  }

  /** The state after one `rand_next` step: three xors into the other words, a shifted xor, and a rotation. */
  function NextState(s: State): State
  {
    var t := s.s1 << 9;
    var s2 := s.s2 ^ s.s0;
    var s3 := s.s3 ^ s.s1;
    var s1 := s.s1 ^ s2;
    var s0 := s.s0 ^ s3;
    State(s0, s1, s2 ^ t, Rotl(s3, 11))
  }

  /** The all-zero state steps to itself and yields 0, which is why a seed must not be all zero. */
  lemma ZeroStateIsFixed()
    ensures NextState(ZERO_STATE) == ZERO_STATE && Output(ZERO_STATE) == 0
  {
  }

  /**
   * `rand_next`: return the scrambled output of the state as it was on entry, and
   * advance the state words in place by one step.
   */
  method RandNext(seed: array<bv32>) returns (result: bv32)
    requires seed.Length == 4
    modifies seed
    ensures result == Output(StateOf(old(seed[..])))
    ensures StateOf(seed[..]) == NextState(StateOf(old(seed[..])))
  {
    var s := StateOf(seed[..]);
    result := Output(s);
    var n := NextState(s);
    seed[0], seed[1], seed[2], seed[3] := n.s0, n.s1, n.s2, n.s3;
  }

  /** Values of the C type `int`. */
  predicate IsInt32(x: int)
  {
    -0x8000_0000 <= x < 0x8000_0000
  }

  /**
   * The value `rand_int_range` returns for the generator output `r`: `end - begin` is an
   * `int` (which must not overflow and, being a divisor, must not be 0); it and `begin`
   * convert to `uint32_t`, so the remainder and the sum are taken modulo 2^32.
   */
  function IntRange(r: bv32, begin: int, end: int): (v: int)
    requires IsInt32(begin) && IsInt32(end) && IsInt32(end - begin) && begin != end
    ensures 0 <= v < 0x1_0000_0000
    ensures 0 <= begin < end ==> begin <= v < end
    ensures 0 <= begin < end ==> v - begin == r as int % (end - begin)
  {
    var x := r as int;
    var span := (end - begin) % 0x1_0000_0000;
    var sum := x % span + begin % 0x1_0000_0000;
    InRangeSum(x, begin, end);
    sum % 0x1_0000_0000
  }

  /** For a non-negative range of `int`, the conversions to `uint32_t` change nothing and the sum cannot wrap. */
  lemma InRangeSum(x: int, begin: int, end: int)
    requires 0 <= x < 0x1_0000_0000 && end < 0x8000_0000
    ensures 0 <= begin < end ==> (end - begin) % 0x1_0000_0000 == end - begin && begin % 0x1_0000_0000 == begin
    ensures 0 <= begin < end ==> begin <= x % (end - begin) + begin < end
  {
  }

  /** `rand_int_range`: one generator step, reduced into `[begin, end)` when `0 <= begin < end`. */
  method RandIntRange(seed: array<bv32>, begin: int, end: int) returns (v: int)
    requires seed.Length == 4
    requires IsInt32(begin) && IsInt32(end) && IsInt32(end - begin) && begin != end
    modifies seed
    ensures v == IntRange(Output(StateOf(old(seed[..]))), begin, end)
    ensures 0 <= begin < end ==> begin <= v < end
    ensures StateOf(seed[..]) == NextState(StateOf(old(seed[..])))
  {
    var r := RandNext(seed);
    v := IntRange(r, begin, end);
  }

  // ---------------------------------------------------------------------------
  // Time conversions

  const NSEC_PER_SEC: int := 1_000_000_000
  /** `SetWaitableTimer` counts in units of 100 ns. */
  const TIMER_QUANTUM: int := 100

  datatype Timespec = Timespec(tvSec: int, tvNsec: int)

  function TotalNs(t: Timespec): int
  {
    t.tvSec * NSEC_PER_SEC + t.tvNsec
  }

  /**
   * The normalisation in `nanosleep`: whole seconds of `tv_nsec` move into `tv_sec`, with
   * C's truncating division, keeping the total time and the sign of the nanoseconds.
   */
  function Normalise(ts: Timespec): (r: Timespec)
    ensures TotalNs(r) == TotalNs(ts)
    ensures -NSEC_PER_SEC < r.tvNsec < NSEC_PER_SEC
    ensures ts.tvNsec >= 0 ==> 0 <= r.tvNsec && r.tvSec >= ts.tvSec
    ensures ts.tvNsec <= 0 ==> r.tvNsec <= 0 && r.tvSec <= ts.tvSec
    ensures 0 <= ts.tvNsec < NSEC_PER_SEC ==> r == ts
  {
    CDivMod(ts.tvNsec, NSEC_PER_SEC);
    Timespec(ts.tvSec + CDiv(ts.tvNsec, NSEC_PER_SEC), CMod(ts.tvNsec, NSEC_PER_SEC))
  }

  /**
   * The relative due time `nanosleep` gives the timer: minus the requested time in
   * 100 ns units, rounded toward zero.
   */
  function TimerDelay(ts: Timespec): (delay: int)
    ensures delay == CDiv(-TotalNs(ts), TIMER_QUANTUM)
    ensures TotalNs(ts) >= 0 ==> delay <= 0 && -delay * TIMER_QUANTUM <= TotalNs(ts) < (-delay + 1) * TIMER_QUANTUM
  {
    var n := Normalise(ts);
    CDiv(-(n.tvSec * NSEC_PER_SEC + n.tvNsec), TIMER_QUANTUM)
  }

  /** `nanosleep`: -1 when no timer can be created or the timed wait fails, 0 otherwise. */
  function Nanosleep(ts: Timespec, timerCreated: bool, waitOk: bool): (r: int)
    ensures r == 0 <==> timerCreated && waitOk
    ensures r == 0 || r == -1
  {
    if !timerCreated then -1 else if waitOk then 0 else -1
  }

  /** What `clock_gettime` and `clock_getres` leave behind: -1, or 0 with a timespec. */
  datatype ClockResult = ClockFailed | ClockOk(t: Timespec)

  /**
   * `clock_gettime`: the performance counter `count` ticking at `freq` per second becomes
   * whole seconds and the nanoseconds of the remainder. A failed counter or frequency
   * query (None) gives -1.
   */
  function ClockGettime(count: Option<int>, freq: Option<int>): (r: ClockResult)
    requires freq.Some? ==> freq.value > 0
    ensures r.ClockOk? <==> count.Some? && freq.Some?
  {
    if count.None? || freq.None? then ClockFailed
    else
      var c, f := count.value, freq.value;
      ClockOk(Timespec(CDiv(c, f), CDiv(CMod(c, f) * NSEC_PER_SEC, f)))
  }

  /**
   * For a non-negative count: the seconds are `count / freq`, the nanoseconds lie in
   * `[0, 10^9)`, and together they are the counter's time in nanoseconds, rounded down.
   */
  lemma {:induction false} ClockGettimeSplit(count: int, freq: int)
    requires count >= 0 && freq > 0
    ensures ClockGettime(Some(count), Some(freq)).ClockOk?
    ensures ClockGettime(Some(count), Some(freq)).t.tvSec == count / freq
    ensures 0 <= ClockGettime(Some(count), Some(freq)).t.tvNsec < NSEC_PER_SEC
    ensures TotalNs(ClockGettime(Some(count), Some(freq)).t) == count * NSEC_PER_SEC / freq
  {
    var q, m := count / freq, count % freq;
    var m9 := m * NSEC_PER_SEC;
    assert 0 <= m9 by {
      MulNonNeg(m, NSEC_PER_SEC);
    }
    var d, e := m9 / freq, m9 % freq;
    assert d < NSEC_PER_SEC by {
      MulStrict(m, freq, NSEC_PER_SEC);
      DivBelow(m9, freq, NSEC_PER_SEC);
    }
    calc {
      count * NSEC_PER_SEC;
      (q * freq + m) * NSEC_PER_SEC;
      { Distrib(q * freq, m, NSEC_PER_SEC); }
      q * freq * NSEC_PER_SEC + m9;
      { MulComm3(q, freq, NSEC_PER_SEC); }
      (q * NSEC_PER_SEC) * freq + d * freq + e;
      { Distrib(q * NSEC_PER_SEC, d, freq); }
      (q * NSEC_PER_SEC + d) * freq + e;
    }
    DivUnique(count * NSEC_PER_SEC, freq, q * NSEC_PER_SEC + d, e);
  }

  /**
   * `clock_getres`: zero seconds and `10^9 / freq` nanoseconds, the tick length rounded
   * down to whole nanoseconds; -1 when the frequency query fails.
   */
  function ClockGetres(freq: Option<int>): (r: ClockResult)
    requires freq.Some? ==> freq.value > 0
    ensures r.ClockOk? <==> freq.Some?
    ensures r.ClockOk? ==> r.t.tvSec == 0
    ensures r.ClockOk? ==> r.t.tvNsec * freq.value <= NSEC_PER_SEC < (r.t.tvNsec + 1) * freq.value
  {
    if freq.None? then ClockFailed
    else
      var f := freq.value;
      DivBounds(NSEC_PER_SEC, f);
      ClockOk(Timespec(0, CDiv(NSEC_PER_SEC, f)))
  }

  // Arithmetic helpers for the proofs above.

  lemma MulNonNeg(a: int, b: int)
    requires a >= 0 && b >= 0
    ensures a * b >= 0
  {
  }

  lemma MulStrict(a: int, b: int, c: int)
    requires 0 <= a < b && c > 0
    ensures a * c < b * c
  {
    assert b * c - a * c == (b - a) * c;
  }

  lemma DivBelow(a: int, b: int, c: int)
    requires a >= 0 && b > 0 && a < c * b
    ensures a / b < c
  {
    assert (a / b) * b <= a;
    if a / b >= c {
      MulLe(c, a / b, b);
    }
  }

  lemma MulLe(a: int, b: int, c: int)
    requires a <= b && c > 0
    ensures a * c <= b * c
  {
    assert b * c - a * c == (b - a) * c;
    MulNonNeg(b - a, c);
  }

  lemma Distrib(a: int, b: int, c: int)
    ensures (a + b) * c == a * c + b * c
  {
  }

  lemma MulComm3(a: int, b: int, c: int)
    ensures a * b * c == (a * c) * b
  {
  }

  lemma DivUnique(a: int, b: int, q: int, r: int)
    requires b > 0 && 0 <= r < b && a == q * b + r
    ensures a / b == q
  {
    var q', r' := a / b, a % b;
    assert q' * b + r' == a;
    var k := q' - q;
    assert k * b == r - r' by {
      Distrib(q', -q, b);
    }
    if k >= 1 {
      MulAtLeast(k, b);
    } else if k <= -1 {
      MulAtLeast(-k, b);
    }
  }

  lemma MulAtLeast(k: int, b: int)
    requires k >= 1 && b > 0
    ensures k * b >= b
  {
    assert k * b == (k - 1) * b + b;
    MulNonNeg(k - 1, b);
  }

  lemma DivBounds(a: int, b: int)
    requires a >= 0 && b > 0
    ensures (a / b) * b <= a < (a / b + 1) * b
  {
    assert (a / b) * b + a % b == a;
    assert (a / b + 1) * b == (a / b) * b + b;
  }
}

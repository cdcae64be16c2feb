/**
 * Monotonic-time arithmetic on (seconds, nanoseconds) pairs: field-wise
 * differences, normalisation into canonical form, and addition with an
 * overflow clamp. `time_t` and `long` are 64-bit signed integers that wrap.
 */
module TimeUtil {
  import opened CTypes

  const NSEC_PER_SEC: int := 1_000_000_000

  /** Width of `time_t` in bytes on the LP64 target. */
  const TIME_T_BYTES: nat := 8

  /** The largest value a signed 64-bit `time_t` holds. */
  const TIME_T_MAX: int := INT64_MAX

  /** TIME_T_MAX is `(1UL << (bits of time_t - 1)) - 1`, the bit width being
      `sizeof(time_t) << 3`. */
  lemma TimeTMaxFormula()
    ensures TIME_T_MAX == (((1 as bv64) << (TIME_T_BYTES * 8 - 1)) - 1) as int
  {
  }

  /** `struct timespec`: `tv_sec` is a `time_t`, `tv_nsec` a `long`. */
  datatype Timespec = Timespec(sec: Int64, nsec: Int64)

  /** The canonical storage format: `0 <= tv_nsec < NSEC_PER_SEC`. */
  predicate Normal(t: Timespec) {
    0 <= t.nsec < NSEC_PER_SEC
  }

  /** A valid non-negative timestamp, as `timespec_add_safe` expects. */
  predicate NonNegative(t: Timespec) {
    Normal(t) && t.sec >= 0
  }

  /** The exact number of nanoseconds a pair denotes. */
  function Total(t: Timespec): int {
    t.sec * NSEC_PER_SEC + t.nsec
  }

  /** The latest representable time value. */
  const MAX_TIME: Timespec := Timespec(INT64_MAX, NSEC_PER_SEC - 1)

  // ---------------------------------------------------------------------------
  // set_normalized_timespec
  // ---------------------------------------------------------------------------

  /**
   * Reference definition of normalisation: floor division moves whole
   * seconds out of `nsec` and the non-negative remainder stays; the seconds
   * field wraps like a `time_t`.
   */
  function Normalized(sec: Int64, nsec: Int64): (r: Timespec)
    ensures Normal(r)
  {
    Timespec(Wrap64(sec + nsec / NSEC_PER_SEC), nsec % NSEC_PER_SEC)
  }

  /**
   * `set_normalized_timespec`: a carry loop while `nsec >= NSEC_PER_SEC`,
   * then a borrow loop while `nsec < 0`; `++sec` and `--sec` wrap.
   */
  method SetNormalizedTimespec(sec: Int64, nsec: Int64) returns (ts: Timespec)
    ensures Normal(ts)
    ensures ts == Normalized(sec, nsec)
  {
    var s: Int64 := sec;
    var n: int := nsec;
    ghost var carried: int := 0;
    while n >= NSEC_PER_SEC
      invariant 0 <= carried
      invariant n == nsec - carried * NSEC_PER_SEC
      invariant carried > 0 ==> n >= 0
      invariant s == Wrap64(sec + carried)
      decreases n
    {
      n := n - NSEC_PER_SEC;
      WrapStep(sec, carried, s, 1);
      s := Wrap64(s + 1);
      carried := carried + 1;
    }
    while n < 0
      invariant n < NSEC_PER_SEC
      invariant n == nsec - carried * NSEC_PER_SEC
      invariant s == Wrap64(sec + carried)
      decreases -n
    {
      n := n + NSEC_PER_SEC;
      WrapStep(sec, carried, s, -1);
      s := Wrap64(s - 1);
      carried := carried - 1;
    }
    LoopResultIsNormalized(sec, nsec, carried, s, n);
    ts := Timespec(s, n);
  }

  /** One `++sec` or `--sec` step keeps `s` the wrap of `sec` plus the carries. */
  lemma WrapStep(sec: int, carried: int, s: Int64, d: int)
    requires s == Wrap64(sec + carried)
    ensures Wrap64(s + d) == Wrap64(sec + (carried + d))
  {
    WrapShift(sec + carried, d);
  }

  /** Where both loops stop, `(s, n)` is the reference normalisation. */
  lemma LoopResultIsNormalized(sec: Int64, nsec: Int64, carried: int, s: Int64, n: int)
    requires n == nsec - carried * NSEC_PER_SEC && 0 <= n < NSEC_PER_SEC
    requires s == Wrap64(sec + carried)
    ensures Timespec(s, n) == Normalized(sec, nsec)
  {
    DivModUnique(nsec, carried, n);
  }

  /** Floor division by NSEC_PER_SEC is determined by its remainder range. */
  lemma DivModUnique(a: int, q: int, r: int)
    requires a == q * NSEC_PER_SEC + r
    requires 0 <= r < NSEC_PER_SEC
    ensures a / NSEC_PER_SEC == q && a % NSEC_PER_SEC == r
  {
  }

  /** Normalisation keeps the denoted time whenever the seconds do not wrap,
      for any `nsec`, positive or negative. */
  lemma NormalizedPreservesTotal(sec: Int64, nsec: Int64)
    requires InInt64(sec + nsec / NSEC_PER_SEC)
    ensures Total(Normalized(sec, nsec)) == sec * NSEC_PER_SEC + nsec
  {
  }

  /** When the carried or borrowed seconds leave the `time_t` range, the
      seconds field holds the two's-complement wrap of the true value:
      2^64 less above the range, 2^64 more below it. */
  lemma NormalizedWraps(sec: Int64, nsec: Int64)
    ensures sec + nsec / NSEC_PER_SEC > INT64_MAX ==>
              Normalized(sec, nsec).sec == sec + nsec / NSEC_PER_SEC - TWO_64
    ensures sec + nsec / NSEC_PER_SEC < INT64_MIN ==>
              Normalized(sec, nsec).sec == sec + nsec / NSEC_PER_SEC + TWO_64
  {
  }

  /** Already-normal input is stored unchanged. */
  lemma NormalizedNoOp(sec: Int64, nsec: Int64)
    requires 0 <= nsec < NSEC_PER_SEC
    ensures Normalized(sec, nsec) == Timespec(sec, nsec)
  {
  }

  /** A normal pair denoting the same time as `(sec, nsec)` is the result of
      normalising `(sec, nsec)`: the canonical form is unique. */
  lemma NormalizedUnique(sec: Int64, nsec: Int64, t: Timespec)
    requires Normal(t)
    requires Total(t) == sec * NSEC_PER_SEC + nsec
    ensures Normalized(sec, nsec) == t
  {
    DivModUnique(nsec, t.sec - sec, t.nsec);
  }

  // ---------------------------------------------------------------------------
  // clock_gettime_diff, clock_gettime_diff_add
  // ---------------------------------------------------------------------------

  /** Field-wise `end - beg` in `time_t` and `long` arithmetic; when neither
      field wraps it denotes the time from `beg` to `end`, and for normal
      operands its nanoseconds lie strictly within one second either way. */
  function FieldSub(end: Timespec, beg: Timespec): (r: Timespec)
    ensures InInt64(end.sec - beg.sec) && InInt64(end.nsec - beg.nsec) ==>
              Total(r) == Total(end) - Total(beg)
    ensures Normal(beg) && Normal(end) ==> -NSEC_PER_SEC < r.nsec < NSEC_PER_SEC
  {
    Timespec(Wrap64(end.sec - beg.sec), Wrap64(end.nsec - beg.nsec))
  }

  /** Field-wise `a + b` in `time_t` and `long` arithmetic; when neither
      field wraps it denotes the sum of the two times. */
  function FieldAdd(a: Timespec, b: Timespec): (r: Timespec)
    ensures InInt64(a.sec + b.sec) && InInt64(a.nsec + b.nsec) ==> Total(r) == Total(a) + Total(b)
  {
    Timespec(Wrap64(a.sec + b.sec), Wrap64(a.nsec + b.nsec))
  }

  /** `clock_gettime_diff`: `end - beg`, field by field, not normalised; when
      neither field wraps it denotes exactly the elapsed time. */
  method ClockGettimeDiff(beg: Timespec, end: Timespec) returns (diff: Timespec)
    ensures diff == FieldSub(end, beg)
    ensures InInt64(end.sec - beg.sec) && InInt64(end.nsec - beg.nsec) ==>
              Total(diff) == Total(end) - Total(beg)
    ensures Normal(beg) && Normal(end) ==> -NSEC_PER_SEC < diff.nsec < NSEC_PER_SEC
  {
    diff := Timespec(Wrap64(end.sec - beg.sec), Wrap64(end.nsec - beg.nsec));
  }

  /** `clock_gettime_diff_add`: the difference `clock_gettime_diff` computes is
      added onto the fields of `diff`, again without normalising; when nothing
      wraps the accumulated value grows by exactly the elapsed time. */
  method ClockGettimeDiffAdd(beg: Timespec, end: Timespec, diff: Timespec) returns (acc: Timespec)
    ensures acc == FieldAdd(diff, FieldSub(end, beg))
    ensures InInt64(end.sec - beg.sec) && InInt64(end.nsec - beg.nsec) &&
            InInt64(diff.sec + (end.sec - beg.sec)) && InInt64(diff.nsec + (end.nsec - beg.nsec)) ==>
              Total(acc) == Total(diff) + (Total(end) - Total(beg))
  {
    var sec := diff.sec;
    var nsec := diff.nsec;
    sec := Wrap64(sec + Wrap64(end.sec - beg.sec));
    nsec := Wrap64(nsec + Wrap64(end.nsec - beg.nsec));
    acc := Timespec(sec, nsec);
  }

  /** Accumulating onto a zeroed `diff` gives the plain difference, and the
      difference of two normal timestamps need not be normal. */
  lemma DiffAddOntoZero(beg: Timespec, end: Timespec)
    ensures FieldAdd(Timespec(0, 0), FieldSub(end, beg)) == FieldSub(end, beg)
    ensures FieldSub(Timespec(2, 100_000_000), Timespec(1, 500_000_000)) == Timespec(1, -400_000_000)
  {
  }

  // ---------------------------------------------------------------------------
  // timespec_add_safe
  // ---------------------------------------------------------------------------

  /** The nanosecond sum carries at most one second. */
  function Carry(lhs: Timespec, rhs: Timespec): int {
    (lhs.nsec + rhs.nsec) / NSEC_PER_SEC
  }

  /** The result of the `set_normalized_timespec` call inside
      `timespec_add_safe`: the seconds are added (and wrap) first. */
  function SumNormalized(lhs: Timespec, rhs: Timespec): (r: Timespec)
    requires NonNegative(lhs) && NonNegative(rhs)
    ensures Normal(r)
  {
    Normalized(Wrap64(lhs.sec + rhs.sec), lhs.nsec + rhs.nsec)
  }

  /** Adding two normal nanosecond fields carries at most one second. */
  lemma CarryIsBit(lhs: Timespec, rhs: Timespec)
    requires Normal(lhs) && Normal(rhs)
    ensures 0 <= Carry(lhs, rhs) <= 1
    ensures lhs.nsec + rhs.nsec == Carry(lhs, rhs) * NSEC_PER_SEC + (lhs.nsec + rhs.nsec) % NSEC_PER_SEC
  {
    var n := lhs.nsec + rhs.nsec;
    if n < NSEC_PER_SEC {
      DivModUnique(n, 0, n);
    } else {
      DivModUnique(n, 1, n - NSEC_PER_SEC);
    }
  }

  /** The seconds of the normalised sum are the wrap of the true seconds,
      carry included, however the two wrap steps fall. */
  lemma SumNormalizedSec(lhs: Timespec, rhs: Timespec)
    requires NonNegative(lhs) && NonNegative(rhs)
    ensures SumNormalized(lhs, rhs).sec == Wrap64(lhs.sec + rhs.sec + Carry(lhs, rhs))
    ensures SumNormalized(lhs, rhs).nsec == (lhs.nsec + rhs.nsec) % NSEC_PER_SEC
  {
    WrapShift(lhs.sec + rhs.sec, Carry(lhs, rhs));
  }

  /** The guard of `timespec_add_safe`: the wrapped seconds fell below an
      input's. It fires exactly when the true sum of seconds, carry included,
      exceeds TIME_T_MAX. */
  predicate ClampFires(lhs: Timespec, rhs: Timespec)
    requires NonNegative(lhs) && NonNegative(rhs)
    ensures ClampFires(lhs, rhs) <==> lhs.sec + rhs.sec + Carry(lhs, rhs) > TIME_T_MAX
  {
    CarryIsBit(lhs, rhs);
    SumNormalizedSec(lhs, rhs);
    WrapOnce(lhs.sec + rhs.sec + Carry(lhs, rhs));
    var res := SumNormalized(lhs, rhs);
    res.sec < lhs.sec || res.sec < rhs.sec
  }

  /** The overflow guard fires exactly when the true sum of seconds, carry
      included, exceeds TIME_T_MAX; otherwise no wrap happened. */
  lemma ClampFiresIffOverflow(lhs: Timespec, rhs: Timespec)
    requires NonNegative(lhs) && NonNegative(rhs)
    ensures 0 <= Carry(lhs, rhs) <= 1
    ensures SumNormalized(lhs, rhs).sec == Wrap64(lhs.sec + rhs.sec + Carry(lhs, rhs))
    ensures SumNormalized(lhs, rhs).nsec == (lhs.nsec + rhs.nsec) % NSEC_PER_SEC
    ensures ClampFires(lhs, rhs) <==> lhs.sec + rhs.sec + Carry(lhs, rhs) > TIME_T_MAX
  {
    CarryIsBit(lhs, rhs);
    SumNormalizedSec(lhs, rhs);
    WrapOnce(lhs.sec + rhs.sec + Carry(lhs, rhs));
  }

  /**
   * `timespec_add_safe` as written: on overflow only `tv_sec` is replaced by
   * TIME_T_MAX; `tv_nsec` keeps the normalised remainder.
   */
  function AddSafeAsWritten(lhs: Timespec, rhs: Timespec): (r: Timespec)
    requires NonNegative(lhs) && NonNegative(rhs)
    ensures Normal(r)
  {
    var res := SumNormalized(lhs, rhs);
    if ClampFires(lhs, rhs) then res.(sec := TIME_T_MAX) else res
  }

  /** What `timespec_add_safe` promises and keeps: a normal result; the exact
      sum when the seconds do not overflow; TIME_T_MAX seconds when they do. */
  lemma AddSafeAsWrittenRule(lhs: Timespec, rhs: Timespec)
    requires NonNegative(lhs) && NonNegative(rhs)
    ensures var r := AddSafeAsWritten(lhs, rhs);
      && Normal(r)
      && (lhs.sec + rhs.sec + Carry(lhs, rhs) <= TIME_T_MAX ==>
            r == Normalized(lhs.sec + rhs.sec, lhs.nsec + rhs.nsec) && Total(r) == Total(lhs) + Total(rhs))
      && (lhs.sec + rhs.sec + Carry(lhs, rhs) > TIME_T_MAX ==>
            r.sec == TIME_T_MAX && r.nsec == (lhs.nsec + rhs.nsec) % NSEC_PER_SEC)
  {
    ClampFiresIffOverflow(lhs, rhs);
  }

  /** The as-written clamp can return a time earlier than its left operand:
      one frame slice added to a timestamp just below the maximum. */
  lemma AddSafeAsWrittenGoesBackwards()
    ensures var lhs, rhs := Timespec(INT64_MAX, 999_000_000), Timespec(0, 16_666_666);
      && NonNegative(lhs) && NonNegative(rhs)
      && AddSafeAsWritten(lhs, rhs) == Timespec(INT64_MAX, 15_666_666)
      && Total(AddSafeAsWritten(lhs, rhs)) < Total(lhs)
  {
    var lhs, rhs := Timespec(INT64_MAX, 999_000_000), Timespec(0, 16_666_666);
    ClampFiresIffOverflow(lhs, rhs);
    assert Carry(lhs, rhs) == 1;
    assert ClampFires(lhs, rhs);
    assert SumNormalized(lhs, rhs).nsec == 15_666_666;
  }

  /** The smaller of two integers. */
  function Min(a: int, b: int): int {
    if a <= b then a else b
  }

  /**
   * `timespec_add_safe` with the clamp that saturates the whole value: on
   * overflow the result is the latest representable time. The result is the
   * saturating sum of the two timestamps.
   */
  function AddSafe(lhs: Timespec, rhs: Timespec): (r: Timespec)
    requires NonNegative(lhs) && NonNegative(rhs)
    ensures NonNegative(r)
    ensures Total(r) == Min(Total(lhs) + Total(rhs), Total(MAX_TIME))
  {
    ClampFiresIffOverflow(lhs, rhs);
    if ClampFires(lhs, rhs) then MAX_TIME else SumNormalized(lhs, rhs)
  }

  /** The saturating add agrees with the source whenever the clamp does not fire. */
  lemma AddSafeAgreesWithoutOverflow(lhs: Timespec, rhs: Timespec)
    requires NonNegative(lhs) && NonNegative(rhs)
    requires lhs.sec + rhs.sec + Carry(lhs, rhs) <= TIME_T_MAX
    ensures AddSafe(lhs, rhs) == AddSafeAsWritten(lhs, rhs)
    ensures AddSafe(lhs, rhs) == Normalized(lhs.sec + rhs.sec, lhs.nsec + rhs.nsec)
  {
    ClampFiresIffOverflow(lhs, rhs);
    assert !ClampFires(lhs, rhs);
    var n := lhs.nsec + rhs.nsec;
    assert SumNormalized(lhs, rhs) == Timespec(lhs.sec + rhs.sec + n / NSEC_PER_SEC, n % NSEC_PER_SEC);
  }

  /** Two normal pairs denoting the same time are equal. */
  lemma NormalTotalInjective(a: Timespec, b: Timespec)
    requires Normal(a) && Normal(b) && Total(a) == Total(b)
    ensures a == b
  {
    DivModUnique(Total(a), a.sec, a.nsec);
    DivModUnique(Total(b), b.sec, b.nsec);
  }

  /** The saturating add never goes backwards: its result is at least each
      operand, and it is monotone in its left operand. */
  lemma AddSafeMonotone(a: Timespec, b: Timespec, rhs: Timespec)
    requires NonNegative(a) && NonNegative(b) && NonNegative(rhs)
    requires Total(a) <= Total(b)
    ensures Total(a) <= Total(AddSafe(a, rhs))
    ensures Total(rhs) <= Total(AddSafe(a, rhs))
    ensures Total(AddSafe(a, rhs)) <= Total(AddSafe(b, rhs))
  {
  }
}

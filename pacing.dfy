/**
 * Frame pacing of the presentation loop: the frame slice, the clock
 * expressions the busy-wait compares, and the record of what the loop has
 * read so far, with the lemmas that one more iteration keeps it. The clock
 * is a sequence of readings, consumed one per call. The loop itself is in
 * `PacingLoop`.
 */
module Pacing {
  import opened CTypes
  import opened TimeUtil

  /** The frame rate the loop paces for. */
  const FRAMES_PER_SEC: int := 60

  /** `time_slice`: zero seconds and `1 / 60.0 * 1000000000L` nanoseconds. */
  const FRAME_SLICE: Timespec := Timespec(0, 16_666_666)

  /** The slice is one sixtieth of a second truncated to whole nanoseconds. */
  lemma FrameSliceIsTruncatedSixtieth()
    ensures FRAME_SLICE.nsec == NSEC_PER_SEC / FRAMES_PER_SEC
    ensures FRAME_SLICE.nsec * FRAMES_PER_SEC <= NSEC_PER_SEC < (FRAME_SLICE.nsec + 1) * FRAMES_PER_SEC
    ensures NonNegative(FRAME_SLICE)
  {
  }

  /** The largest seconds value whose nanosecond count always fits a `long`. */
  const WIDE_SEC_LIMIT: int := 9_223_372_035

  predicate InWideRange(t: Timespec) {
    NonNegative(t) && t.sec <= WIDE_SEC_LIMIT
  }

  /** The busy-wait compares `tv_sec * 1000000000 + tv_nsec`, computed in
      `long` arithmetic (which wraps); within the range above it is the
      exact time in nanoseconds. */
  function WideNsec(t: Timespec): (r: Int64)
    ensures InWideRange(t) ==> r == Total(t)
  {
    Wrap64(Wrap64(t.sec * NSEC_PER_SEC) + t.nsec)
  }

  /** `elapsed`: nanoseconds from `start` to `sync`, from the field-wise
      `time_t` and `long` differences; for non-negative timestamps it is the
      exact time between them. */
  function ElapsedNsec(start: Timespec, sync: Timespec): (r: int)
    ensures NonNegative(start) && NonNegative(sync) ==> r == Total(sync) - Total(start)
  {
    Wrap64(sync.sec - start.sec) * NSEC_PER_SEC + Wrap64(sync.nsec - start.nsec)
  }

  /** Readings of a monotonic clock: valid, non-decreasing, and early enough
      that one slice later is still within the busy-wait's exact range. */
  predicate ClockReadings(clock: seq<Timespec>) {
    && (forall i :: 0 <= i < |clock| ==> NonNegative(clock[i]) && clock[i].sec < WIDE_SEC_LIMIT)
    && (forall i, j {:trigger Total(clock[i]), Total(clock[j])} :: 0 <= i <= j < |clock| ==> Total(clock[i]) <= Total(clock[j]))
  }

  /** The next target is one slice after the loop-end reading, exactly, and
      stays in the range where the busy-wait compares exact times. */
  lemma NextTarget(loopEnd: Timespec)
    requires NonNegative(loopEnd) && loopEnd.sec < WIDE_SEC_LIMIT
    ensures InWideRange(AddSafe(loopEnd, FRAME_SLICE))
    ensures Total(AddSafe(loopEnd, FRAME_SLICE)) == Total(loopEnd) + FRAME_SLICE.nsec
  {
    var t := AddSafe(loopEnd, FRAME_SLICE);
    assert t.sec * NSEC_PER_SEC < (WIDE_SEC_LIMIT + 1) * NSEC_PER_SEC;
  }

  /** A non-negative time exactly one slice after a clock reading is the
      saturating sum of the two; so the loop's targets are determined by
      their nanosecond totals. */
  lemma TargetIsAddSafe(loopEnd: Timespec, target: Timespec)
    requires NonNegative(loopEnd) && loopEnd.sec < WIDE_SEC_LIMIT
    requires NonNegative(target) && Total(target) == Total(loopEnd) + FRAME_SLICE.nsec
    ensures target == AddSafe(loopEnd, FRAME_SLICE)
  {
    NextTarget(loopEnd);
    NormalTotalInjective(target, AddSafe(loopEnd, FRAME_SLICE));
  }

  /** For every clock reading, `timespec_add_safe` as written and the
      saturating add give the same target: the seconds cannot overflow. */
  lemma SliceAddNeverClamps(loopEnd: Timespec)
    requires NonNegative(loopEnd) && loopEnd.sec < WIDE_SEC_LIMIT
    ensures !ClampFires(loopEnd, FRAME_SLICE)
    ensures AddSafeAsWritten(loopEnd, FRAME_SLICE) == AddSafe(loopEnd, FRAME_SLICE)
  {
    CarryIsBit(loopEnd, FRAME_SLICE);
    AddSafeAgreesWithoutOverflow(loopEnd, FRAME_SLICE);
  }

  /** Iteration `i` aims one slice after its loop-end reading. */
  predicate Aimed(loopEnd: Timespec, target: Timespec) {
    NonNegative(target) && Total(target) == Total(loopEnd) + FRAME_SLICE.nsec
  }

  /** What the loop has recorded: every loop-end time is a clock reading,
      every target is that reading plus one slice, the targets never
      decrease, and each loop-end time is at or after every earlier target. */
  ghost predicate Paced(clock: seq<Timespec>, loopEnds: seq<Timespec>, targets: seq<Timespec>) {
    && |loopEnds| == |targets|
    && (forall i :: 0 <= i < |loopEnds| ==> loopEnds[i] in clock && NonNegative(loopEnds[i]))
    && (forall i :: 0 <= i < |targets| ==> NonNegative(targets[i]))
    && (forall i :: 0 <= i < |targets| ==> Total(targets[i]) == Total(loopEnds[i]) + FRAME_SLICE.nsec)
    && (forall i, j :: 0 <= i < j < |targets| ==> Total(targets[i]) <= Total(targets[j]))
    && (forall i, j :: 0 <= i < j < |loopEnds| ==> Total(targets[i]) <= Total(loopEnds[j]))
  }

  /** In a paced record every target is what `timespec_add_safe` as written
      returns for its loop-end reading, and also the saturating sum. */
  lemma PacedTargetsAreAddSafe(clock: seq<Timespec>, loopEnds: seq<Timespec>, targets: seq<Timespec>)
    requires ClockReadings(clock) && Paced(clock, loopEnds, targets)
    ensures forall i :: 0 <= i < |loopEnds| ==> loopEnds[i] in clock
    ensures forall i :: 0 <= i < |targets| ==>
              targets[i] == AddSafeAsWritten(loopEnds[i], FRAME_SLICE) == AddSafe(loopEnds[i], FRAME_SLICE)
    ensures forall i :: 0 <= i < |targets| ==> Total(targets[i]) == Total(loopEnds[i]) + FRAME_SLICE.nsec
    ensures forall i, j :: 0 <= i < j < |targets| ==> Total(targets[i]) <= Total(targets[j])
    ensures forall i, j :: 0 <= i < j < |loopEnds| ==> Total(targets[i]) <= Total(loopEnds[j])
  {
    forall i | 0 <= i < |targets|
      ensures targets[i] == AddSafeAsWritten(loopEnds[i], FRAME_SLICE) == AddSafe(loopEnds[i], FRAME_SLICE)
    {
      TargetIsAddSafe(loopEnds[i], targets[i]);
      SliceAddNeverClamps(loopEnds[i]);
    }
  }

  /** The busy-wait after the loop-end reading at position `at` read the
      positions before `upto`: every one but the last is below `target`, and
      unless the readings ran out it read at least one and the last reaches
      `target`. */
  ghost predicate WaitedUntil(clock: seq<Timespec>, at: nat, upto: nat, target: Timespec)
    requires upto <= |clock|
  {
    && (forall k :: at < k < upto - 1 ==> Total(clock[k]) < Total(target))
    && (upto < |clock| ==> at + 1 < upto && Total(target) <= Total(clock[upto - 1]))
  }

  /** Where the busy-wait of iteration `i` stopped: at the next loop-end
      reading, or at `used` after the last iteration. */
  function NextEnd(ends: seq<nat>, i: nat, used: nat): nat
    requires i < |ends|
  {
    if i + 1 < |ends| then ends[i + 1] else used
  }

  /**
   * Which clock readings the loop consumed: `ends` holds the position of
   * each loop-end reading. The first is taken right after the start time,
   * and each busy-wait waits from its loop-end reading until the next
   * loop-end reading (or, after the last iteration, until `used`): it stops
   * at the first reading that reaches its target, and the next loop-end
   * reading is the one after that.
   */
  ghost predicate Scheduled(clock: seq<Timespec>, loopEnds: seq<Timespec>, targets: seq<Timespec>,
                            ends: seq<nat>, used: nat) {
    && |ends| == |loopEnds| == |targets|
    && used <= |clock|
    && (forall i :: 0 <= i < |ends| ==> ends[i] < used && loopEnds[i] == clock[ends[i]])
    && (|ends| > 0 ==> ends[0] == 1)
    && (forall i {:trigger NextEnd(ends, i, used)} :: 0 <= i < |ends| ==> NextEnd(ends, i, used) <= |clock|)
    && (forall i {:trigger NextEnd(ends, i, used)} :: 0 <= i < |ends| ==>
          WaitedUntil(clock, ends[i], NextEnd(ends, i, used), targets[i]))
  }

  /** One more iteration, starting at position `pos` where the previous
      busy-wait stopped, keeps the schedule. */
  lemma ScheduledExtend(clock: seq<Timespec>, loopEnds: seq<Timespec>, targets: seq<Timespec>,
                        ends: seq<nat>, pos: nat, target: Timespec, pos1: nat)
    requires Scheduled(clock, loopEnds, targets, ends, pos)
    requires pos < pos1 <= |clock|
    requires |ends| == 0 ==> pos == 1
    requires WaitedUntil(clock, pos, pos1, target)
    ensures Scheduled(clock, loopEnds + [clock[pos]], targets + [target], ends + [pos], pos1)
  {
    var es, ls, ts := ends + [pos], loopEnds + [clock[pos]], targets + [target];
    var n := |ends|;
    assert es[n] == pos && ls[n] == clock[pos] && ts[n] == target;
    assert forall i :: 0 <= i < n ==> es[i] == ends[i] && ls[i] == loopEnds[i] && ts[i] == targets[i];
    forall i | 0 <= i < n + 1
      ensures NextEnd(es, i, pos1) <= |clock|
      ensures WaitedUntil(clock, es[i], NextEnd(es, i, pos1), ts[i])
    {
      if i < n {
        assert NextEnd(es, i, pos1) == NextEnd(ends, i, pos);
      }
    }
  }

  /** In a schedule each loop-end reading comes at least two positions after
      the previous one: the busy-wait between them read at least once. */
  lemma {:induction false} ScheduledEndsIncrease(clock: seq<Timespec>, loopEnds: seq<Timespec>,
                                                 targets: seq<Timespec>, ends: seq<nat>, used: nat, i: nat, j: nat)
    requires Scheduled(clock, loopEnds, targets, ends, used)
    requires i < j < |ends|
    ensures ends[i] + 1 < ends[j]
    decreases j - i
  {
    assert NextEnd(ends, i, used) == ends[i + 1];
    assert WaitedUntil(clock, ends[i], ends[i + 1], targets[i]);
    if i + 1 < j {
      ScheduledEndsIncrease(clock, loopEnds, targets, ends, used, i + 1, j);
    }
  }

  /** A schedule over monotonic readings whose every iteration aimed one
      slice after its loop-end reading is a paced record: each loop-end
      reading comes after the reading that met the previous target. */
  lemma ScheduleIsPaced(clock: seq<Timespec>, loopEnds: seq<Timespec>, targets: seq<Timespec>,
                        ends: seq<nat>, used: nat)
    requires ClockReadings(clock) && Scheduled(clock, loopEnds, targets, ends, used)
    requires forall i :: 0 <= i < |targets| ==> Aimed(loopEnds[i], targets[i])
    ensures Paced(clock, loopEnds, targets)
  {
    forall i, j | 0 <= i < j < |loopEnds|
      ensures Total(targets[i]) <= Total(loopEnds[j])
    {
      assert NextEnd(ends, i, used) == ends[i + 1];
      assert WaitedUntil(clock, ends[i], ends[i + 1], targets[i]);
      if i + 1 < j {
        ScheduledEndsIncrease(clock, loopEnds, targets, ends, used, i + 1, j);
      }
      assert Total(clock[ends[i + 1] - 1]) <= Total(clock[ends[j]]);
    }
    forall i, j | 0 <= i < j < |targets|
      ensures Total(targets[i]) <= Total(targets[j])
    {
      assert Aimed(loopEnds[j], targets[j]);
    }
  }

  /** What the presentation loop keeps between iterations, at clock position
      `pos` with the synced time read at `syncAt`: the record is scheduled,
      every iteration aimed one slice after its loop-end reading, only the
      start time precedes the first frame, and the synced time has reached
      the last target unless the readings ran out. */
  ghost predicate Progress(clock: seq<Timespec>, loopEnds: seq<Timespec>, targets: seq<Timespec>,
                           ends: seq<nat>, pos: nat, syncAt: nat) {
    && syncAt < pos
    && Scheduled(clock, loopEnds, targets, ends, pos)
    && (forall i :: 0 <= i < |targets| ==> Aimed(loopEnds[i], targets[i]))
    && (|ends| == 0 ==> pos == 1)
    && (|targets| > 0 && pos < |clock| ==> Total(targets[|targets| - 1]) <= Total(clock[syncAt]))
  }

  /** One iteration that reads its loop-end time at `pos0`, aims at `target`
      and busy-waits up to `pos` keeps the loop's progress. */
  lemma ProgressStep(clock: seq<Timespec>, loopEnds: seq<Timespec>, targets: seq<Timespec>,
                     ends: seq<nat>, pos0: nat, syncAt0: nat, target: Timespec, pos: nat, syncAt: nat)
    requires Progress(clock, loopEnds, targets, ends, pos0, syncAt0) && pos0 < |clock|
    requires Aimed(clock[pos0], target)
    requires pos0 < pos <= |clock|
    requires pos0 + 1 < |clock| ==> pos > pos0 + 1
    requires syncAt < pos && (pos < |clock| ==> syncAt == pos - 1)
    requires pos < |clock| ==> Total(target) <= Total(clock[pos - 1])
    requires forall i :: pos0 + 1 <= i < pos - 1 ==> Total(clock[i]) < Total(target)
    ensures Progress(clock, loopEnds + [clock[pos0]], targets + [target], ends + [pos0], pos, syncAt)
  {
    var ls, ts := loopEnds + [clock[pos0]], targets + [target];
    assert forall i :: 0 <= i < |targets| ==> ls[i] == loopEnds[i] && ts[i] == targets[i];
    assert ls[|targets|] == clock[pos0] && ts[|targets|] == target;
    assert WaitedUntil(clock, pos0, pos, target);
    ScheduledExtend(clock, loopEnds, targets, ends, pos0, target, pos);
  }

}

/**
 * The timing code of the presentation loop. Each iteration reads the
 * monotonic clock, presents a frame, sets the next target to the loop-end
 * time plus one frame slice, and busy-polls the clock until the synced time
 * reaches the target. The shutdown flag is replaced by the number of
 * iterations that observe it cleared.
 */
module PacingLoop {
  import opened CTypes
  import opened TimeUtil
  import opened Pacing

  /**
   * The busy-wait: while the synced time is before the target, read the
   * clock into `sync` and recompute `elapsed`. It returns as soon as a
   * reading reaches the target, or when the readings run out.
   */
  method BusyWait(target: Timespec, start: Timespec, sync0: Timespec, elapsed0: int,
                  clock: seq<Timespec>, pos0: nat)
    returns (sync: Timespec, elapsed: int, pos: nat)
    requires pos0 <= |clock|
    ensures pos0 <= pos <= |clock|
    ensures WideNsec(target) <= WideNsec(sync) || pos == |clock|
    ensures pos == pos0 ==> sync == sync0 && elapsed == elapsed0
    ensures pos > pos0 ==> sync == clock[pos - 1] && elapsed == ElapsedNsec(start, sync)
    ensures pos > pos0 ==> WideNsec(sync0) < WideNsec(target)
    ensures forall i :: pos0 <= i < pos - 1 ==> WideNsec(clock[i]) < WideNsec(target)
  {
    sync, elapsed, pos := sync0, elapsed0, pos0;
    while WideNsec(sync) < WideNsec(target) && pos < |clock|
      invariant pos0 <= pos <= |clock|
      invariant pos == pos0 ==> sync == sync0 && elapsed == elapsed0
      invariant pos > pos0 ==> sync == clock[pos - 1] && elapsed == ElapsedNsec(start, sync)
      invariant pos > pos0 ==> WideNsec(sync0) < WideNsec(target)
      invariant forall i :: pos0 <= i < pos - 1 ==> WideNsec(clock[i]) < WideNsec(target)
      decreases |clock| - pos
    {
      sync := clock[pos];
      pos := pos + 1;
      elapsed := ElapsedNsec(start, sync);
    }
  }


  /**
   * The timing of one iteration of the presentation loop: read the loop-end
   * time (before the frame is drawn), then, once it is presented, set the
   * target one slice later with `timespec_add_safe` and busy-wait for it.
   * The target is also the saturating sum, since a clock reading never
   * makes the clamp fire. The busy-wait reads the clock at least once when
   * a reading is left, and stops at the first reading that reaches the
   * target: every reading it skipped past is below the target, and unless
   * the readings ran out the last one it took, now the synced time, is not.
   */
  method PaceFrame(clock: seq<Timespec>, start: Timespec, sync0: Timespec, ghost syncAt0: nat,
                   elapsed0: int, pos0: nat)
    returns (loopEnd: Timespec, target: Timespec, sync: Timespec, ghost syncAt: nat, elapsed: int, pos: nat)
    requires ClockReadings(clock)
    requires syncAt0 < pos0 < |clock| && sync0 == clock[syncAt0]
    ensures loopEnd == clock[pos0] && Total(sync0) <= Total(loopEnd)
    ensures target == AddSafeAsWritten(loopEnd, FRAME_SLICE) == AddSafe(loopEnd, FRAME_SLICE)
    ensures NonNegative(target) && Total(target) == Total(loopEnd) + FRAME_SLICE.nsec
    ensures pos0 < pos <= |clock|
    ensures syncAt < pos && sync == clock[syncAt]
    ensures pos < |clock| ==> Total(target) <= Total(sync)
    ensures pos == pos0 + 1 ==> sync == sync0 && elapsed == elapsed0
    ensures pos > pos0 + 1 ==> elapsed == ElapsedNsec(start, sync)
    ensures pos0 + 1 < |clock| ==> pos > pos0 + 1
    ensures pos > pos0 + 1 ==> syncAt == pos - 1
    ensures forall i :: pos0 + 1 <= i < pos - 1 ==> Total(clock[i]) < Total(target)
  {
    loopEnd := clock[pos0];
    pos := pos0 + 1;
    target := loopEnd;
    NextTarget(target);
    SliceAddNeverClamps(target);
    target := AddSafeAsWritten(target, FRAME_SLICE);
    sync, elapsed, pos := BusyWait(target, start, sync0, elapsed0, clock, pos);
    syncAt := if pos > pos0 + 1 then pos - 1 else syncAt0;
    forall i | pos0 + 1 <= i < pos - 1
      ensures Total(clock[i]) < Total(target)
    {
      assert InWideRange(clock[i]);
    }
  }

  /** One iteration of the presentation loop, extending the loop's record of
      what the earlier iterations read: the target is what
      `timespec_add_safe` returns one slice after the loop-end reading, and
      `elapsed` stays the time since the first reading. */
  method RecordedFrame(clock: seq<Timespec>, start: Timespec, sync0: Timespec, ghost syncAt0: nat,
                       elapsed0: int, pos0: nat,
                       ghost loopEnds: seq<Timespec>, ghost targets: seq<Timespec>, ghost ends: seq<nat>)
    returns (loopEnd: Timespec, target: Timespec, sync: Timespec, ghost syncAt: nat, elapsed: int, pos: nat)
    requires ClockReadings(clock)
    requires Progress(clock, loopEnds, targets, ends, pos0, syncAt0)
    requires pos0 < |clock| && sync0 == clock[syncAt0]
    requires start == clock[0] && elapsed0 == Total(sync0) - Total(start)
    ensures loopEnd == clock[pos0] && pos0 < pos <= |clock|
    ensures target == AddSafeAsWritten(loopEnd, FRAME_SLICE)
    ensures syncAt < pos && sync == clock[syncAt] && elapsed == Total(sync) - Total(start)
    ensures Progress(clock, loopEnds + [loopEnd], targets + [target], ends + [pos0], pos, syncAt)
  {
    loopEnd, target, sync, syncAt, elapsed, pos := PaceFrame(clock, start, sync0, syncAt0, elapsed0, pos0);
    ProgressStep(clock, loopEnds, targets, ends, pos0, syncAt0, target, pos, syncAt);
  }

  /**
   * The presentation loop, reduced to its timing: `frames` iterations
   * observe the shutdown flag cleared. Every target is what
   * `timespec_add_safe` returns for its loop-end reading, exactly one slice
   * later; targets never decrease, and no iteration starts before an
   * earlier target: frames are at least one slice apart. The ghost `ends`
   * gives the position of each loop-end reading: the first is the reading
   * after the start time, and each busy-wait stops at the first reading that
   * reaches its target, the next loop-end reading being the one after it
   * (`Scheduled`). The loop stops early only when the readings run out.
   * `elapsed` is always the exact time from the first reading to the last
   * synced one.
   */
  method PresentationLoop(clock: seq<Timespec>, frames: nat)
    returns (loopEnds: seq<Timespec>, targets: seq<Timespec>, frameCount: nat, used: nat,
             elapsed: int, ghost ends: seq<nat>)
    requires ClockReadings(clock)
    ensures used <= |clock|
    ensures frameCount == 0 ==> used <= 1
    ensures Scheduled(clock, loopEnds, targets, ends, used)
    ensures |clock| == 0 ==> elapsed == 0
    ensures |clock| > 0 ==> exists i :: 0 <= i < used && elapsed == Total(clock[i]) - Total(clock[0])
    ensures frameCount == |loopEnds| == |targets| <= frames
    ensures frameCount < frames ==> used == |clock|
    ensures forall i :: 0 <= i < |loopEnds| ==> loopEnds[i] in clock
    ensures forall i :: 0 <= i < |targets| ==>
              targets[i] == AddSafeAsWritten(loopEnds[i], FRAME_SLICE) == AddSafe(loopEnds[i], FRAME_SLICE)
    ensures forall i :: 0 <= i < |targets| ==> Total(targets[i]) == Total(loopEnds[i]) + FRAME_SLICE.nsec
    ensures forall i, j :: 0 <= i < j < |targets| ==> Total(targets[i]) <= Total(targets[j])
    ensures forall i, j :: 0 <= i < j < |loopEnds| ==> Total(targets[i]) <= Total(loopEnds[j])
  {
    loopEnds, targets, frameCount, ends := [], [], 0, [];
    if |clock| == 0 {
      return loopEnds, targets, frameCount, 0, 0, ends;
    }
    var timeStart := clock[0];
    var timeSync := timeStart;
    elapsed := 0;
    var pos := 1;
    ghost var syncAt: nat := 0;
    while frameCount < frames && pos < |clock|
      invariant 1 <= pos <= |clock|
      invariant frameCount == |targets| <= frames
      invariant syncAt < pos && timeSync == clock[syncAt]
      invariant elapsed == Total(timeSync) - Total(clock[0])
      invariant Progress(clock, loopEnds, targets, ends, pos, syncAt)
      decreases |clock| - pos
    {
      var timeLoopE, timeTarget;
      ghost var pos0 := pos;
      timeLoopE, timeTarget, timeSync, syncAt, elapsed, pos :=
        RecordedFrame(clock, timeStart, timeSync, syncAt, elapsed, pos, loopEnds, targets, ends);
      frameCount := frameCount + 1;
      ends := ends + [pos0];
      loopEnds := loopEnds + [timeLoopE];
      targets := targets + [timeTarget];
    }
    used := pos;
    assert 0 <= syncAt < used;
    ScheduleIsPaced(clock, loopEnds, targets, ends, used);
    PacedTargetsAreAddSafe(clock, loopEnds, targets);
  }
}

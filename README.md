# EGL YUV viewer harness — timing, frame layout and input thread

`main.c` opens an X11 window with an EGL/GLES 2 context and reads one raw
planar 4:2:0 frame of 1920 by 1080 pixels from `frame.yuv`. It
uploads the three planes as luminance textures and then redraws at
60 frames per second. It paces the loop by busy-polling the monotonic
clock until a target time one frame slice after the start of the
iteration. An input thread drains X11 events and records window resizes.
It sets the global `done` flag when a key press produces ESC.

This project models the parts of that program that compute something:

- **CTypes** (`ctypes.dfy`): the LP64 integer widths. `int` is 32-bit;
  `long`, `long long` and `time_t` are 64-bit. Signed overflow is written
  out as two's-complement wrap-around (`Wrap64`).
- **TimeUtil** (`timespec.dfy`):
  - the timespec helpers `set_normalized_timespec`, `clock_gettime_diff`,
    `clock_gettime_diff_add` and `timespec_add_safe`;
  - the constants `NSEC_PER_SEC` and `TIME_T_MAX`.

  The normalising loop is an imperative method. It is proved equal to a
  reference definition built on floor division.
- **FrameLayout** (`frame_layout.dfy`): the plane sizes, frame size, frame
  count and read offset of the frame file. It also models the three reads
  and where they land in `planes[]`, using C's truncating `/` and `%`.
- **EventDispatch** (`events.dfy`): the event `switch` of the input thread,
  over a `Device` object (window geometry) and a `ShutdownFlag` object
  (`done`). Both are updated in place. Folding the switch over a batch
  gives the inner drain loop; repeating that over batches gives the outer
  thread loop.
- **Pacing** (`pacing.dfy`) and **PacingLoop** (`pacing_loop.dfy`): the
  presentation loop reduced to its timing.
  - the frame slice;
  - the target computation;
  - the busy-wait with its 64-bit comparison and the `elapsed` update.

  The clock is a finite, non-decreasing sequence of readings.

## Model

| member | source | states |
|---|---|---|
| CTypes.Wrap32 | main.c:490 | Narrowing to a 32-bit `int` keeps values that fit and otherwise keeps the value modulo 2^32 |
| CTypes.Wrap64 | main.c:85-90 | A value already inside the 64-bit range is unchanged by wrapping; `++sec`/`--sec` and the `time_t`/`long` sums and differences go through this wrap |
| TimeUtil.TimeTMaxFormula | main.c:16 | TIME_T_MAX, `(1 << (bits of time_t - 1)) - 1` for an 8-byte `time_t`, is 2^63 - 1 |
| TimeUtil.Normalized | main.c:61-74 | The reference normalisation always yields `0 <= tv_nsec < NSEC_PER_SEC` |
| TimeUtil.SetNormalizedTimespec | main.c:75-94 | The carry loop and the borrow loop leave a normal timespec, and it equals the reference normalisation (floor quotient into seconds with 64-bit wrap, non-negative remainder in nanoseconds) for every `sec` and `nsec` |
| TimeUtil.NormalizedPreservesTotal | main.c:68-73 | Normalising keeps the denoted time `sec * 10^9 + nsec`, for negative `nsec` too, whenever the seconds stay in range |
| TimeUtil.NormalizedWraps | main.c:77-91 | When the carried seconds exceed the `time_t` range the stored seconds are the true value minus 2^64; when the borrowed seconds fall below it they are the true value plus 2^64 |
| TimeUtil.NormalizedNoOp | main.c:77-93 | An `nsec` already in `[0, NSEC_PER_SEC)` is stored with `sec` unchanged |
| TimeUtil.NormalizedUnique | main.c:71-73 | A normal timespec denoting the same time as `(sec, nsec)` is exactly the normalised result |
| TimeUtil.FieldSub | main.c:38-39 | Field-wise `end - beg` with `time_t`/`long` wrap; if neither field wraps it denotes exactly `end - beg`, and for normal operands its `tv_nsec` lies strictly between -10^9 and 10^9 |
| TimeUtil.FieldAdd | main.c:47-48 | Field-wise `a + b` with `time_t`/`long` wrap; if neither field wraps it denotes exactly `a + b` |
| TimeUtil.ClockGettimeDiff | main.c:33-40 | The result is `end - beg` field by field, without normalising; if neither field wraps it denotes exactly the elapsed time, and for normal inputs its `tv_nsec` lies strictly between -10^9 and 10^9 |
| TimeUtil.ClockGettimeDiffAdd | main.c:42-49 | The field-wise difference is added onto `diff`, without normalising; if nothing wraps the accumulated time grows by exactly `end - beg` |
| TimeUtil.DiffAddOntoZero | main.c:33-49 | Accumulating onto a zero `diff` gives the plain difference; the difference of two normal times can have a negative `tv_nsec` |
| TimeUtil.SumNormalized | main.c:105-106 | The inner normalisation of `timespec_add_safe` is a normal timespec |
| TimeUtil.ClampFires | main.c:108 | The guard (result seconds below the seconds of either operand) fires if and only if the true seconds sum, carry included, exceeds TIME_T_MAX |
| TimeUtil.CarryIsBit | main.c:105-106 | Adding two normal nanosecond fields carries 0 or 1 second |
| TimeUtil.ClampFiresIffOverflow | main.c:105-109 | Gathers in one statement what the clamp decision rests on: the normalised sum's seconds are the true seconds sum wrapped to 64 bits, its nanoseconds the remainder of the nanosecond sum, and the guard fires exactly on overflow |
| TimeUtil.AddSafeAsWritten | main.c:100-112 | The function as written always returns a normal timespec |
| TimeUtil.AddSafeAsWrittenRule | main.c:96-112 | For non-negative operands: without overflow the result is the exact normalised sum; with overflow the seconds are TIME_T_MAX and the nanoseconds are the remainder of the sum |
| TimeUtil.AddSafeAsWrittenGoesBackwards | main.c:108-109 | Adding 16666666 ns to `(2^63-1, 999000000)` yields `(2^63-1, 15666666)`, earlier than the left operand |
| TimeUtil.AddSafe | main.c:96-112 | The corrected clamp: the result is non-negative and normal, and denotes `min(lhs + rhs, latest representable time)` |
| TimeUtil.AddSafeAgreesWithoutOverflow | main.c:105-109 | Whenever the guard does not fire, the corrected function returns exactly what the source returns |
| TimeUtil.NormalTotalInjective | main.c:71-73 | Two normal timespecs denoting the same time are equal |
| TimeUtil.AddSafeMonotone | main.c:96-112 | The corrected sum is never earlier than either operand, and is monotone in the left operand |
| FrameLayout.ComputeLayout | main.c:482-493 | Luma size is `w*h`; each chroma plane is `y/4` bytes, so four chroma planes never exceed luma, and luma exceeds them by less than 4 bytes; the frame size is luma plus two chroma planes, positive and within `int` |
| FrameLayout.CDivRem | main.c:493 | C's truncating quotient and remainder recombine to the dividend; the remainder is smaller than the divisor and has the dividend's sign |
| FrameLayout.OffsetSplitsFile | main.c:490-503 | `file_size == frame_count * frame_size + offset`; for a non-negative size the offset is below one frame; for a negative (error) size the offset and count are not positive |
| FrameLayout.FileSizeAsInt | main.c:489-490 | `ftell`'s `long` length stored in an `int`: kept exactly when it fits (below 2 GiB, and the error value -1), otherwise kept modulo 2^32 |
| FrameLayout.PlaneSizes | main.c:497-501 | The three buffers hold `y`, `u` and `v` bytes: the luma plane, then two equal chroma planes |
| FrameLayout.Reads | main.c:503-506 | The three reads start where the seek leaves the stream, each starts where the previous one ended, they fill slots 0, 2 and 1 in that order, and each reads exactly the size of the buffer it fills |
| FrameLayout.ReadsTileOneFrame | main.c:488-506 | The three reads are consecutive and non-overlapping and end one frame size after they start; they start at `p`, the offset when it is non-negative and the end of the file when a negative offset makes the seek fail; `[p, p+y)` fills `planes[0]`, `[p+y, p+y+v)` fills `planes[2]` and `[p+y+v, p+frame_size)` fills `planes[1]`, each with exactly its buffer's size, and each slot is filled once |
| FrameLayout.ReadInsideFileIffWholeFrame | main.c:488-506 | For a file shorter than 2 GiB the frame read lies inside the file if and only if the file holds at least one whole frame; it then ends `frame_count - 1` frames before the end of the file |
| FrameLayout.LargeFileSizeWraps | main.c:488-506 | A file of 2^32 + 100 bytes has its length narrowed to 100: the harness counts no whole frame and reads at offset 100, although the file holds 1380 whole frames and the read lies inside it |
| FrameLayout.RowStride | main.c:526-571 | Rows of a one-byte-per-texel upload start every row width rounded up to the unpack alignment of 4 |
| FrameLayout.UploadBytesRule | main.c:526-571 | An upload reads exactly width times height bytes when rows need no padding or there is one row, and more otherwise |
| FrameLayout.LumaTextureFitsPlane | main.c:526-535 | The `w` by `h` luma upload stays inside its `y`-byte plane if and only if `w` is a multiple of 4 or there is one row, and then reads the whole plane |
| FrameLayout.ChromaTextureFitsPlane | main.c:544-571 | The `w/2` by `h/2` chroma texels never exceed the `y/4`-byte plane and cover it exactly when both dimensions are even; the padded upload stays inside when `w/2` is a multiple of 4, and for even dimensions stays inside if and only if `w/2` is a multiple of 4 or there is one chroma row |
| FrameLayout.ChromaUploadOverreads | main.c:544-571 | For a 6 by 4 frame each chroma upload reads 7 bytes from its 6-byte plane |
| FrameLayout.HarnessFrameFile | main.c:482-503 | For 1920 by 1080: luma 2073600, chroma 518400, frame 3110400 bytes; a three-frame file is read at offset 0, one frame plus 100 bytes at offset 100; the luma and chroma uploads read exactly their planes |
| EventDispatch.Device.constructor | main.c:215-225 | A device starts with the 1280 by 576 geometry |
| EventDispatch.ShutdownFlag.constructor | main.c:31 | The shutdown flag starts cleared |
| EventDispatch.Step | main.c:330-350 | One event: `done` ends up set if and only if it was set or the event is a key press looked up as ESC; a resize sets both dimensions; any other event leaves the geometry unchanged |
| EventDispatch.Dispatch | main.c:330-350 | A resize overwrites both width and height and nothing else; a key press looked up as ESC sets `done` and nothing else; Expose, other keys and other events change nothing |
| EventDispatch.DrainQueue | main.c:325-351 | Draining a queue dispatches every event in order, including those after the one that set `done` |
| EventDispatch.ApplyEventsAppend | main.c:325-351 | Dispatching `a + b` is dispatching `a` and then `b` |
| EventDispatch.HasEscapeAppend | main.c:343-344 | An ESC key press is in `a + b` if and only if it is in `a` or in `b` |
| EventDispatch.ApplyEventsGeometry | main.c:336-339 | After any run of events the geometry is that of the last resize in the run, or unchanged if there is none |
| EventDispatch.ApplyEventsDone | main.c:340-345 | After any run of events `done` is set if and only if it was set before or the run holds an ESC key press |
| EventDispatch.EventThread | main.c:318-353 | The thread serves whole batches in order and its state is that of all events served; it stops only when `done` is set or input runs out; it never starts if `done` is already set, and never starts the batch after one holding ESC |
| Pacing.FrameSliceIsTruncatedSixtieth | main.c:594 | The slice is 16666666 ns, one sixtieth of a second truncated to whole nanoseconds |
| Pacing.WideNsec | main.c:639 | The busy-wait's comparison value `tv_sec * 1000000000 + tv_nsec`, in wrapping 64-bit arithmetic, is the exact nanosecond count for normal times up to 9223372035 seconds |
| Pacing.ElapsedNsec | main.c:641 | `elapsed`, built from the field-wise `time_t` and `long` differences, is exactly the time from the start reading to the synced reading for non-negative timestamps |
| Pacing.NextTarget | main.c:601-638 | One slice after a clock reading is exactly that reading plus 16666666 ns, and stays in the busy-wait's exact range |
| Pacing.TargetIsAddSafe | main.c:638 | A non-negative time one slice after a reading is the saturating sum the target computation returns |
| Pacing.SliceAddNeverClamps | main.c:638 | For any clock reading the guard of `timespec_add_safe` does not fire when the slice is added, so the function as written and the saturating add return the same target |
| PacingLoop.BusyWait | main.c:639-642 | The wait polls only while the synced time is before the target; it stops at the first reading that reaches the target (or when readings run out); every reading it skipped past was before the target; `elapsed` tracks the last reading |
| Pacing.PacedTargetsAreAddSafe | main.c:600-638 | In a paced record (loop-end times are clock readings, targets one slice after them, targets never decreasing, each loop-end time at or after every earlier target) every target is what `timespec_add_safe` as written returns for its loop-end reading, and also the saturating add |
| Pacing.ScheduledExtend | main.c:598-642 | One more iteration whose loop-end reading is the one where the previous busy-wait stopped, and whose busy-wait skips only readings before its target and stops at the first that reaches it, extends the schedule of loop-end positions |
| Pacing.ScheduledEndsIncrease | main.c:599-640 | In a schedule each loop-end reading is at least two positions after the previous one: between two loop-end readings the busy-wait always reads the clock at least once |
| Pacing.ScheduleIsPaced | main.c:599-642 | Over non-decreasing readings, a schedule whose targets are each one slice after their loop-end reading is a paced record: every loop-end reading is at or after every earlier target, and the targets never decrease |
| Pacing.ProgressStep | main.c:598-642 | One iteration (loop-end read at the current position, target one slice later, busy-wait as above) keeps what the loop maintains between iterations: the schedule, the targets one slice after their loop-end readings, and the synced time at or after the last target unless the readings ran out |
| PacingLoop.PaceFrame | main.c:598-642 | One iteration reads the loop-end time at the current position, sets the target with `timespec_add_safe` as written (equal to the saturating add, exactly one slice later), then busy-waits: every reading after the loop-end one but the last is before the target; unless the readings ran out it reads at least once and its last reading, the synced one, reaches the target; `elapsed` is recomputed from that reading whenever the busy-wait read the clock |
| PacingLoop.RecordedFrame | main.c:598-642 | One iteration, as above, keeps the loop's record: its loop-end reading, target and stopping position extend the schedule, and `elapsed` stays the time from the start reading to the synced one |
| PacingLoop.PresentationLoop | main.c:594-643 | The start time is the first reading and the first loop-end time the second; each busy-wait stops at the first reading that reaches its target and the next loop-end time is the reading after it (the ghost `ends` gives their positions); every target is what `timespec_add_safe` as written returns for its loop-end reading, which is also the saturating add, exactly one slice later; targets never decrease; every loop-end reading is at or after all earlier targets, so frames start at least one slice apart; the loop stops early only when the clock readings run out, and with no frame it reads at most the start time; `elapsed` is always the exact time from the first clock reading to one of the readings used |

## Left out

- EGL and GLES calls are not modelled: display, config, surface and context setup, shader compilation and linking (`gl_compile_shader`, `gl_link_program`), texture upload and drawing. Only the sizes they are given, and the bytes an upload reads from its buffer under the initial unpack alignment of 4, are modelled.
- `egl_initialize` and `egl_uninitialize` are not modelled; they only sequence platform and EGL calls.
- X11 window creation and teardown, `select` with its one-second timeout and `XPending`/`XNextEvent` are not modelled. Events arrive as a sequence of batches, one batch per wake-up.
- Threads and the signal handler are not modelled. `done` is a plain field, not a `volatile sig_atomic_t` shared by two threads and a signal handler. The race between the event thread's writes and the render loop's reads is out of scope.
- PacingLoop.PresentationLoop: the shutdown flag is replaced by a count of iterations that see it cleared. The model stops when the clock readings run out, which the endless real clock never does.
- File I/O is not modelled. The file's length is an input, narrowed to `int` as the code does; a failing `fopen` and partial or failing `fread`s are not modelled.
- FrameLayout.ReadsTileOneFrame: when `ftell` fails (returns -1) the stream position is unknown; the model places it at the given length, as after a successful seek to the end.
- `clock_gettime` is a sequence of non-decreasing readings, each normal and below 9223372035 seconds.
- `clock_getdiff_nsec`, `clock_getdiff_sec`, the per-frame status line and the frame-rate figure use `long double` and are not modelled. `elapsed` is modelled as the exact value of its `long double` expression.
- The `float` intensity `i` and its direction flag `d` are not modelled; they never affect timing or output state.
- The `asm("")` compiler barrier is not modelled; it has no effect on values.
- The commented-out platform templates and the `system("setterm -cursor off")` call are not modelled.
- PacingLoop.PresentationLoop: `frame_count` is an unbounded count, not a wrapping C `int`.
- Signed overflow is undefined behaviour in C. It is modelled as the two's-complement wrap that the guard in `timespec_add_safe` relies on.
- `TIME_T_MAX` assumes an 8-byte `time_t`, as on LP64 Linux.
- `timespec_add_safe` takes and returns structs by value, and the other helpers write through pointers. Both become return values; aliasing between arguments is not modelled.
- EventDispatch.Event: a key press carries the first byte its lookup wrote. When the lookup writes nothing, `buf[0]` is uninitialised in the source; the model treats it as some arbitrary byte.
- The slice comes from the code's double expression `1 / 60.0 * 1000000000L`, which truncates to 16666666 ns.
- Overflow clamping follows the code, which replaces only `tv_sec`. It does not follow the description of the function as returning the maximum time value.

## Findings

| source | as written | input that shows it | evidently intended | confidence | as-written member | corrected member |
|---|---|---|---|---|---|---|
| main.c:108-109 | On overflow only `tv_sec` is set to TIME_T_MAX; `tv_nsec` keeps the remainder of the nanosecond sum, so the "clamped" result can be earlier than the left operand | `lhs = (2^63-1 s, 999000000 ns)`, `rhs = (0 s, 16666666 ns)` gives `(2^63-1 s, 15666666 ns)`, before `lhs` | Saturate the whole value to the latest representable time `(2^63-1 s, 999999999 ns)`, so the result is `min(lhs + rhs, max)` and never earlier than either operand | medium; not executed | TimeUtil.AddSafeAsWrittenGoesBackwards | TimeUtil.AddSafe |

/**
 * The input thread: it waits on the display connection with a one-second
 * timeout, then drains every queued event through one `switch` that writes
 * the device's window geometry and the process-wide shutdown flag. Events
 * are abstract values; each batch is what one wake-up finds queued.
 */
module EventDispatch {
  import opened CTypes

  /** The character code of the escape key. */
  const ESC: int := 27

  /** The window size the display setup stores before any resize. */
  const EGL_DEVICE_WIDTH: int := 1280
  const EGL_DEVICE_HEIGHT: int := 576

  /** A C `char`. */
  type CChar = c: int | -128 <= c <= 127

  /** The event kinds the dispatch distinguishes. A key press carries the
      first character its key lookup produced (`buf[0]`); `Other` stands for
      every event type the `switch` has no case for. */
  datatype Event =
    | Expose
    | ConfigureNotify(width: Int32, height: Int32)
    | KeyPress(lookup0: CChar)
    | Other

  /** The shared state the dispatch writes. */
  datatype EventState = EventState(width: Int32, height: Int32, done: bool)

  /** The state after dispatching one event: only a resize changes the
      geometry, and only an ESC key press sets `done`, which stays set. */
  function Step(s: EventState, e: Event): (r: EventState)
    ensures r.done <==> s.done || e == KeyPress(ESC)
    ensures e.ConfigureNotify? ==> r.width == e.width && r.height == e.height
    ensures !e.ConfigureNotify? ==> r.width == s.width && r.height == s.height
  {
    match e
    case Expose => s
    case ConfigureNotify(w, h) => s.(width := w, height := h)
    case KeyPress(c) => if c == ESC then s.(done := true) else s
    case Other => s
  }

  /** The state after dispatching a sequence of events in order. */
  function ApplyEvents(s: EventState, es: seq<Event>): EventState
    decreases |es|
  {
    if es == [] then s else ApplyEvents(Step(s, es[0]), es[1..])
  }

  /** Reference for the geometry: the size of the last resize notification,
      or the initial size when there is none. */
  function LastGeometry(s: EventState, es: seq<Event>): (Int32, Int32)
    decreases |es|
  {
    if es == [] then (s.width, s.height)
    else if es[|es| - 1].ConfigureNotify? then (es[|es| - 1].width, es[|es| - 1].height)
    else LastGeometry(s, es[..|es| - 1])
  }

  /** Reference for the shutdown request: some key press looked up ESC. */
  predicate HasEscape(es: seq<Event>) {
    exists i :: 0 <= i < |es| && es[i] == KeyPress(ESC)
  }

  lemma {:induction false} ApplyEventsAppend(s: EventState, a: seq<Event>, b: seq<Event>)
    ensures ApplyEvents(s, a + b) == ApplyEvents(ApplyEvents(s, a), b)
    decreases |a|
  {
    if a == [] {
      assert a + b == b;
    } else {
      assert (a + b)[0] == a[0] && (a + b)[1..] == a[1..] + b;
      ApplyEventsAppend(Step(s, a[0]), a[1..], b);
    }
  }

  lemma HasEscapeAppend(a: seq<Event>, b: seq<Event>)
    ensures HasEscape(a + b) <==> HasEscape(a) || HasEscape(b)
  {
    if HasEscape(a) {
      var i :| 0 <= i < |a| && a[i] == KeyPress(ESC);
      assert (a + b)[i] == KeyPress(ESC);
    }
    if HasEscape(b) {
      var i :| 0 <= i < |b| && b[i] == KeyPress(ESC);
      assert (a + b)[|a| + i] == KeyPress(ESC);
    }
    if HasEscape(a + b) {
      var i :| 0 <= i < |a + b| && (a + b)[i] == KeyPress(ESC);
      if i >= |a| {
        assert b[i - |a|] == KeyPress(ESC);
      }
    }
  }

  /** After a run of events the geometry is that of the last resize
      notification; Expose, key presses and other events never touch it. */
  lemma {:induction false} ApplyEventsGeometry(s: EventState, es: seq<Event>)
    ensures (ApplyEvents(s, es).width, ApplyEvents(s, es).height) == LastGeometry(s, es)
    decreases |es|
  {
    if es != [] {
      var init, last := es[..|es| - 1], es[|es| - 1];
      assert es == init + [last];
      ApplyEventsAppend(s, init, [last]);
      ApplyEventsGeometry(s, init);
    }
  }

  /** After a run of events the shutdown flag is set exactly when it was set
      before or some key press in the run looked up ESC. */
  lemma {:induction false} ApplyEventsDone(s: EventState, es: seq<Event>)
    ensures ApplyEvents(s, es).done <==> s.done || HasEscape(es)
    decreases |es|
  {
    if es != [] {
      assert es == [es[0]] + es[1..];
      HasEscapeAppend([es[0]], es[1..]);
      ApplyEventsDone(Step(s, es[0]), es[1..]);
    }
  }

  /** `struct egl_device`, reduced to the geometry the input thread writes. */
  class Device {
    var width: Int32
    var height: Int32

    /** The geometry stored when the display connection is opened. */
    constructor ()
      ensures width == EGL_DEVICE_WIDTH && height == EGL_DEVICE_HEIGHT
    {
      width := EGL_DEVICE_WIDTH;
      height := EGL_DEVICE_HEIGHT;
    }
  }

  /** The process-wide `done` flag; it starts cleared. */
  class ShutdownFlag {
    var done: bool

    constructor ()
      ensures !done
    {
      done := false;
    }
  }

  function StateOf(device: Device, flag: ShutdownFlag): EventState
    reads device, flag
  {
    EventState(device.width, device.height, flag.done)
  }

  /** The body of the event `switch`: a resize overwrites the geometry, a key
      press whose lookup starts with ESC sets `done`, anything else (Expose
      included) changes nothing. */
  method Dispatch(device: Device, flag: ShutdownFlag, e: Event)
    modifies device, flag
    ensures StateOf(device, flag) == Step(old(StateOf(device, flag)), e)
    ensures e.ConfigureNotify? ==>
      device.width == e.width && device.height == e.height && flag.done == old(flag.done)
    ensures e.KeyPress? && e.lookup0 == ESC ==>
      flag.done && device.width == old(device.width) && device.height == old(device.height)
    ensures !e.ConfigureNotify? && !(e.KeyPress? && e.lookup0 == ESC) ==>
      StateOf(device, flag) == old(StateOf(device, flag))
  {
    match e
    case Expose =>
    case ConfigureNotify(w, h) =>
      device.width := w;
      device.height := h;
    case KeyPress(c) =>
      if c == ESC {
        flag.done := true;
      }
    case Other =>
  }

  /** The inner loop: every queued event is dispatched, in order, even after
      one of them has set `done`. */
  method DrainQueue(device: Device, flag: ShutdownFlag, queue: seq<Event>)
    modifies device, flag
    ensures StateOf(device, flag) == ApplyEvents(old(StateOf(device, flag)), queue)
  {
    ghost var s0 := StateOf(device, flag);
    var i := 0;
    while i < |queue|
      invariant 0 <= i <= |queue|
      invariant StateOf(device, flag) == ApplyEvents(s0, queue[..i])
    {
      Dispatch(device, flag, queue[i]);
      ApplyEventsAppend(s0, queue[..i], [queue[i]]);
      assert queue[..i + 1] == queue[..i] + [queue[i]];
      i := i + 1;
    }
    assert queue[..i] == queue;
  }

  /** All events of a list of batches, in order. */
  function Concat(batches: seq<seq<Event>>): seq<Event>
    decreases |batches|
  {
    if batches == [] then [] else Concat(batches[..|batches| - 1]) + batches[|batches| - 1]
  }

  /**
   * The thread loop: while `done` is clear, wait for the next batch and
   * drain it. It stops once a batch has set `done` (or no input is left),
   * so it never starts the batch after the one holding an ESC key press.
   */
  method EventThread(device: Device, flag: ShutdownFlag, batches: seq<seq<Event>>) returns (served: nat)
    modifies device, flag
    ensures served <= |batches|
    ensures StateOf(device, flag) == ApplyEvents(old(StateOf(device, flag)), Concat(batches[..served]))
    ensures flag.done || served == |batches|
    ensures old(flag.done) ==> served == 0
    ensures forall k :: 0 <= k < |batches| && HasEscape(batches[k]) ==> served <= k + 1
  {
    ghost var s0 := StateOf(device, flag);
    served := 0;
    while !flag.done && served < |batches|
      invariant served <= |batches|
      invariant StateOf(device, flag) == ApplyEvents(s0, Concat(batches[..served]))
      invariant forall k :: 0 <= k < served ==> !ApplyEvents(s0, Concat(batches[..k])).done
      invariant s0.done ==> served == 0
    {
      ghost var before := batches[..served];
      assert !ApplyEvents(s0, Concat(before)).done;
      DrainQueue(device, flag, batches[served]);
      assert batches[..served + 1][..served] == before;
      ApplyEventsAppend(s0, Concat(before), batches[served]);
      served := served + 1;
    }
    forall k | 0 <= k < |batches| && HasEscape(batches[k])
      ensures served <= k + 1
    {
      if served > k + 1 {
        var upTo := batches[..k + 1];
        assert upTo[..k] == batches[..k];
        HasEscapeAppend(Concat(batches[..k]), batches[k]);
        ApplyEventsDone(s0, Concat(upTo));
      }
    }
  }
}

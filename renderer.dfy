/**
 * `SurfaceTextureRenderer`'s layout state: whether rendering is paused,
 * whether the first frame has been reported, and the frame size and rotation
 * last reported to the `RendererEvents` listener. The events the listener
 * receives are kept as a sequence, in order.
 */
module Renderer {
  import opened FrameUtils

  /** A call on `RendererEvents`. */
  datatype Event = FirstFrameRendered | FrameResolutionChanged(width: int, height: int, rotation: int)

  /** `isRenderingPaused`, `isFirstFrameRendered`, `rotatedFrameWidth`, `rotatedFrameHeight`, `frameRotation`. */
  datatype Layout = Layout(paused: bool, firstFrameRendered: bool, width: int, height: int, rotation: int)

  // ---------------------------------------------------------------------------
  // The pure state machine
  // ---------------------------------------------------------------------------

  /** `init`: the layout forgotten, rotation -1 so the next frame always reports its size. */
  function Initialized(l: Layout): Layout
  {
    l.(firstFrameRendered := false, width := 0, height := 0, rotation := -1)
  }

  /**
   * `updateFrameDimensionsAndReportEvents` for a buffer of `width` x `height`:
   * nothing while paused; otherwise the first-frame event once, and a
   * resolution event with rotation 0 whenever the size or rotation on record
   * differs. Events are delivered only when there is a listener.
   */
  function Update(l: Layout, listening: bool, width: int, height: int): (Layout, seq<Event>)
  {
    if l.paused then (l, [])
    else
      var first := if !l.firstFrameRendered && listening then [FirstFrameRendered] else [];
      var changed := l.width != width || l.height != height || l.rotation != 0;
      var resized := if changed && listening then [FrameResolutionChanged(width, height, 0)] else [];
      var next := l.(firstFrameRendered := true);
      (if changed then next.(width := width, height := height, rotation := 0) else next, first + resized)
  }

  /** While paused, an update changes nothing and reports nothing. */
  lemma PausedUpdateIsQuiet(l: Layout, listening: bool, width: int, height: int)
    requires l.paused
    ensures Update(l, listening, width, height) == (l, [])
  {
  }

  /**
   * An unpaused update records the buffer's size with rotation 0, leaves the
   * pause flag alone, and marks the first frame rendered.
   */
  lemma UpdateRecordsSize(l: Layout, listening: bool, width: int, height: int)
    requires !l.paused
    ensures var (n, _) := Update(l, listening, width, height);
      n == Layout(false, true, width, height, 0)
  {
  }

  /**
   * A resolution event is reported exactly when there is a listener, rendering
   * is not paused and the recorded size or rotation differs from the buffer's;
   * it always carries the buffer's size and rotation 0.
   */
  lemma ResolutionEventIff(l: Layout, listening: bool, width: int, height: int)
    ensures var (_, events) := Update(l, listening, width, height);
      && (FrameResolutionChanged(width, height, 0) in events <==>
            listening && !l.paused && (l.width != width || l.height != height || l.rotation != 0))
      && forall e | e in events && e.FrameResolutionChanged? :: e == FrameResolutionChanged(width, height, 0)
  {
  }

  /** Repeating a frame of the same size reports nothing and changes nothing. */
  lemma RepeatedSizeIsQuiet(l: Layout, listening: bool, width: int, height: int)
    requires !l.paused
    ensures var (n, _) := Update(l, listening, width, height);
      Update(n, listening, width, height) == (n, [])
  {
  }

  /**
   * After `init`, the first unpaused frame always reports first-frame and then
   * its resolution, whatever its size (the recorded rotation is -1).
   */
  lemma FirstFrameAfterInitReports(l: Layout, width: int, height: int)
    requires !l.paused
    ensures Update(Initialized(l), true, width, height).1
         == [FirstFrameRendered, FrameResolutionChanged(width, height, 0)]
  {
  }

  /** What can happen to a renderer between two `init` calls. */
  datatype Command = Frame(width: int, height: int) | SetFps(fps: real) | DisableFps | Pause

  /** One command applied: the new layout and the events it reports. */
  function Apply(l: Layout, listening: bool, c: Command): (Layout, seq<Event>)
  {
    match c
    case Frame(width, height) => Update(l, listening, width, height)
    case SetFps(fps) => (l.(paused := fps == 0.0), [])
    case DisableFps => (l.(paused := false), [])
    case Pause => (l.(paused := true), [])
  }

  /** A run of commands: the final layout and every event reported, in order. */
  function Run(l: Layout, listening: bool, cs: seq<Command>): (Layout, seq<Event>)
    decreases |cs|
  {
    if cs == [] then (l, [])
    else
      var (next, events) := Apply(l, listening, cs[0]);
      var (last, more) := Run(next, listening, cs[1..]);
      (last, events + more)
  }

  /** How many first-frame events a sequence holds. */
  function FirstFrameCount(events: seq<Event>): nat
  {
    if events == [] then 0
    else (if events[0] == FirstFrameRendered then 1 else 0) + FirstFrameCount(events[1..])
  }

  lemma {:induction false} FirstFrameCountAppend(a: seq<Event>, b: seq<Event>)
    ensures FirstFrameCount(a + b) == FirstFrameCount(a) + FirstFrameCount(b)
  {
    if a == [] {
      assert a + b == b;
    } else {
      assert (a + b)[0] == a[0];
      assert (a + b)[1..] == a[1..] + b;
      FirstFrameCountAppend(a[1..], b);
    }
  }

  /** Once the first frame is on record no command reports it again. */
  lemma {:induction false} NoFirstFrameAfterRendered(l: Layout, listening: bool, cs: seq<Command>)
    requires l.firstFrameRendered
    ensures FirstFrameCount(Run(l, listening, cs).1) == 0
    decreases |cs|
  {
    if cs != [] {
      var (next, events) := Apply(l, listening, cs[0]);
      NoFirstFrameAfterRendered(next, listening, cs[1..]);
      FirstFrameCountAppend(events, Run(next, listening, cs[1..]).1);
    }
  }

  /** Between two `init` calls the first-frame event is reported at most once. */
  lemma {:induction false} FirstFrameAtMostOnce(l: Layout, listening: bool, cs: seq<Command>)
    ensures FirstFrameCount(Run(l, listening, cs).1) <= (if l.firstFrameRendered then 0 else 1)
    decreases |cs|
  {
    if l.firstFrameRendered {
      NoFirstFrameAfterRendered(l, listening, cs);
    } else if cs != [] {
      var (next, events) := Apply(l, listening, cs[0]);
      FirstFrameCountAppend(events, Run(next, listening, cs[1..]).1);
      if next.firstFrameRendered {
        NoFirstFrameAfterRendered(next, listening, cs[1..]);
        assert FirstFrameCount(events) <= 1;
      } else {
        assert events == [];
        FirstFrameAtMostOnce(next, listening, cs[1..]);
      }
    }
  }

  // ---------------------------------------------------------------------------
  // The renderer object
  // ---------------------------------------------------------------------------

  class SurfaceTextureRenderer {
    var hasListener: bool
    var isRenderingPaused: bool
    var isFirstFrameRendered: bool
    var rotatedFrameWidth: int
    var rotatedFrameHeight: int
    var frameRotation: int
    /** Every event delivered to the listener so far. */
    var events: seq<Event>

    function LayoutOf(): Layout
      reads this
    {
      Layout(isRenderingPaused, isFirstFrameRendered, rotatedFrameWidth, rotatedFrameHeight, frameRotation)
    }

    /** A new renderer: every field at Java's default. */
    constructor ()
      ensures LayoutOf() == Layout(false, false, 0, 0, 0) && !hasListener && events == []
    {
      hasListener := false;
      isRenderingPaused := false;
      isFirstFrameRendered := false;
      rotatedFrameWidth := 0;
      rotatedFrameHeight := 0;
      frameRotation := 0;
      events := [];
    }

    /** `init(sharedContext, rendererEvents, ...)`: `listening` tells whether a listener is given. */
    method Init(listening: bool)
      modifies this
      ensures hasListener == listening && events == old(events)
      ensures LayoutOf() == Initialized(old(LayoutOf()))
    {
      hasListener := listening;
      isFirstFrameRendered := false;
      rotatedFrameWidth := 0;
      rotatedFrameHeight := 0;
      frameRotation := -1;
    }

    /** `setFpsReduction(fps)`: a rate of 0 pauses rendering, any other rate resumes it. */
    method SetFpsReduction(fps: real)
      modifies this
      ensures LayoutOf() == Apply(old(LayoutOf()), hasListener, SetFps(fps)).0
      ensures isRenderingPaused == (fps == 0.0)
      ensures hasListener == old(hasListener) && events == old(events)
    {
      isRenderingPaused := fps == 0.0;
    }

    /** `disableFpsReduction()`. */
    method DisableFpsReduction()
      modifies this
      ensures LayoutOf() == Apply(old(LayoutOf()), hasListener, DisableFps).0
      ensures !isRenderingPaused
      ensures hasListener == old(hasListener) && events == old(events)
    {
      isRenderingPaused := false;
    }

    /** `pauseVideo()`. */
    method PauseVideo()
      modifies this
      ensures LayoutOf() == Apply(old(LayoutOf()), hasListener, Pause).0
      ensures isRenderingPaused
      ensures hasListener == old(hasListener) && events == old(events)
    {
      isRenderingPaused := true;
    }

    /** `updateFrameDimensionsAndReportEvents(frame)`, reading the frame buffer's own size. */
    method UpdateFrameDimensionsAndReportEvents(frame: VideoFrame)
      modifies this
      ensures var (next, reported) := Update(old(LayoutOf()), hasListener, frame.buffer.width, frame.buffer.height);
        LayoutOf() == next && events == old(events) + reported
      ensures hasListener == old(hasListener)
    {
      if isRenderingPaused {
        return;
      }
      if !isFirstFrameRendered {
        isFirstFrameRendered := true;
        if hasListener {
          events := events + [FirstFrameRendered];
        }
      }
      var bufferWidth := frame.buffer.width;
      var bufferHeight := frame.buffer.height;
      if rotatedFrameWidth != bufferWidth || rotatedFrameHeight != bufferHeight || frameRotation != 0 {
        if hasListener {
          events := events + [FrameResolutionChanged(bufferWidth, bufferHeight, 0)];
        }
        rotatedFrameWidth := bufferWidth;
        rotatedFrameHeight := bufferHeight;
        frameRotation := 0;
      }
    }
  }
}

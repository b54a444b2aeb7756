/**
 * The scroll throttle: the `ticking` flag lets a scroll event request an animation frame
 * only when none is pending, and `handleScroll`, run in that frame, clears it.
 */
module Throttle {

  /** `ticking`, and the number of frame callbacks requested and not yet run. */
  datatype Ticker = Ticker(ticking: bool, pendingFrames: nat)

  const Idle := Ticker(false, 0)

  /** What the throttle sees: a window scroll event, or the browser running the next frame. */
  datatype Signal = ScrollEvent | AnimationFrame

  /** The scroll listener: request a frame and set `ticking`, unless it is already set. */
  function OnScroll(t: Ticker): Ticker
  {
    if !t.ticking then Ticker(true, t.pendingFrames + 1) else t
  }

  /** The next frame runs every requested callback; each is `handleScroll`, which clears `ticking`. */
  function OnFrame(t: Ticker): Ticker
  {
    if t.pendingFrames == 0 then t else Ticker(false, 0)
  }

  /** Whether a frame runs `handleScroll`. */
  predicate RunsHandler(t: Ticker)
  {
    t.pendingFrames > 0
  }

  function Step(t: Ticker, s: Signal): Ticker
  {
    match s
    case ScrollEvent => OnScroll(t)
    case AnimationFrame => OnFrame(t)
  }

  function Run(t: Ticker, signals: seq<Signal>): Ticker
  {
    if |signals| == 0 then t else Step(Run(t, signals[..|signals| - 1]), signals[|signals| - 1])
  }

  /** `n` scroll events in a row. */
  function Burst(n: nat): (b: seq<Signal>)
  {
    if n == 0 then [] else Burst(n - 1) + [ScrollEvent]
  }

  /** At most one frame is pending, and exactly while `ticking` is set. */
  predicate Consistent(t: Ticker)
  {
    t.pendingFrames <= 1 && (t.ticking <==> t.pendingFrames == 1)
  }

  /** Each signal keeps the throttle consistent. */
  lemma StepConsistent(t: Ticker, s: Signal)
    requires Consistent(t)
    ensures Consistent(Step(t, s))
  {
  }

  /** From page load on, whatever scroll events and frames occur, at most one frame is pending. */
  lemma {:induction false} RunConsistent(signals: seq<Signal>)
    ensures Consistent(Run(Idle, signals))
  {
    if |signals| > 0 {
      RunConsistent(signals[..|signals| - 1]);
      StepConsistent(Run(Idle, signals[..|signals| - 1]), signals[|signals| - 1]);
    }
  }

  /** While a frame is pending, a further scroll event schedules nothing. */
  lemma ScrollWhilePendingSchedulesNothing(t: Ticker)
    requires Consistent(t) && t.ticking
    ensures OnScroll(t) == t && t.pendingFrames == 1
  {
  }

  /** A scroll event on an idle throttle schedules exactly one frame. */
  lemma ScrollWhenIdleSchedulesOne(t: Ticker)
    requires Consistent(t) && !t.ticking
    ensures OnScroll(t) == Ticker(true, 1)
  {
  }

  /** Any nonempty burst of scroll events between frames leaves exactly one frame pending. */
  lemma {:induction false} BurstRequestsOneFrame(t: Ticker, n: nat)
    requires Consistent(t) && n > 0
    ensures Run(t, Burst(n)) == Ticker(true, 1)
  {
    var b := Burst(n);
    assert b[..|b| - 1] == Burst(n - 1);
    if n > 1 {
      BurstRequestsOneFrame(t, n - 1);
    } else {
      assert Burst(0) == [];
    }
  }

  /** A burst followed by a frame runs `handleScroll` once and leaves the throttle idle. */
  lemma BurstThenFrame(t: Ticker, n: nat)
    requires Consistent(t) && n > 0
    ensures RunsHandler(Run(t, Burst(n)))
    ensures Run(t, Burst(n) + [AnimationFrame]) == Idle
  {
    BurstRequestsOneFrame(t, n);
    var all := Burst(n) + [AnimationFrame];
    assert all[..|all| - 1] == Burst(n);
  }
}

/**
  The interval-driven progress bar shared by the two loading screens.

  On every interval tick the page's state updater looks at the previous
  progress: below 100 it adds a step; at or above 100 it returns exactly
  100, clears the interval and schedules one navigation. The navigation
  timer is not cancelled by the page's cleanup; only the interval is.
 */
module Ticker {

  /** The progress value of a full bar. */
  const Full: real := 100.0

  /** The progress value, whether the interval is still registered, and the
      number of navigations scheduled. */
  datatype Ticker = Ticker(progress: real, running: bool, navigations: nat)

  /** The state on mount: an empty bar and a running interval. */
  function Start(): Ticker {
    Ticker(0.0, true, 0)
  }

  /** The state updater: the next progress value, and whether this tick
      finished the bar (and so stopped the interval and scheduled the
      navigation). */
  function Update(prev: real, step: real): (r: (real, bool))
    ensures r.1 <==> prev >= Full
    ensures r.1 ==> r.0 == Full
    ensures !r.1 ==> r.0 == prev + step
  {
    if prev >= Full then (Full, true) else (prev + step, false)
  }

  /** One interval tick with the given step; once the interval has been
      cleared no callback runs. */
  function Tick(t: Ticker, step: real): (t': Ticker)
    ensures !t.running ==> t' == t
    ensures t.running ==> t'.progress == Update(t.progress, step).0
    ensures t.running ==> (t'.running <==> !Update(t.progress, step).1)
    ensures t'.navigations == t.navigations + (if t.running && t.progress >= Full then 1 else 0)
  {
    if !t.running then t
    else
      var (next, done) := Update(t.progress, step);
      Ticker(next, !done, t.navigations + (if done then 1 else 0))
  }

  /** The page's cleanup on unmount: it clears the interval only. */
  function Teardown(t: Ticker): (t': Ticker)
    ensures !t'.running
    ensures t'.progress == t.progress && t'.navigations == t.navigations
  {
    t.(running := false)
  }

  /** Ticks with the given steps, in order. */
  function Run(t: Ticker, steps: seq<real>): Ticker
    decreases |steps|
  {
    if steps == [] then t else Run(Tick(t, steps[0]), steps[1..])
  }

  /**
    What holds while ticks use steps in [0, maxStep): progress stays in
    [0, 100 + maxStep); a running interval has scheduled nothing; at most
    one navigation is ever scheduled, and only once the bar reads exactly
    100 and the interval is stopped.
   */
  ghost predicate Valid(t: Ticker, maxStep: real) {
    && 0.0 <= t.progress < Full + maxStep
    && (t.running ==> t.navigations == 0)
    && t.navigations <= 1
    && (t.navigations == 1 ==> t.progress == Full && !t.running)
  }

  /** A tick with a step in [0, maxStep) keeps the invariant. */
  lemma TickPreservesValid(t: Ticker, step: real, maxStep: real)
    requires Valid(t, maxStep) && 0.0 <= step < maxStep
    ensures Valid(Tick(t, step), maxStep)
  {
  }

  lemma {:induction false} RunPreservesValid(t: Ticker, steps: seq<real>, maxStep: real)
    requires Valid(t, maxStep)
    requires forall i :: 0 <= i < |steps| ==> 0.0 <= steps[i] < maxStep
    ensures Valid(Run(t, steps), maxStep)
    decreases |steps|
  {
    if steps != [] {
      TickPreservesValid(t, steps[0], maxStep);
      RunPreservesValid(Tick(t, steps[0]), steps[1..], maxStep);
    }
  }

  /** With a non-negative step a tick never lowers the bar, except the
      clamping tick, which brings an overshoot back to exactly 100. */
  lemma TickMonotoneUntilClamp(t: Ticker, step: real)
    requires step >= 0.0
    ensures Tick(t, step).progress >= t.progress || Tick(t, step).progress == Full
    ensures Tick(t, step).progress < t.progress ==> t.running && t.progress > Full
  {
  }

  /** A running bar at or over 100 is clamped by the next tick: exactly 100,
      interval stopped, one navigation scheduled. */
  lemma ClampingTick(t: Ticker, step: real)
    requires t.running && t.progress >= Full
    ensures Tick(t, step) == Ticker(Full, false, t.navigations + 1)
  {
  }

  /** After teardown no tick changes anything. */
  lemma {:induction false} NoTickAfterTeardown(t: Ticker, steps: seq<real>)
    ensures Run(Teardown(t), steps) == Teardown(t)
    decreases |steps|
  {
    if steps != [] {
      NoTickAfterTeardown(t, steps[1..]);
    }
  }
}

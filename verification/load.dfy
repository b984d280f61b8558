/**
  The loading screen in front of the clue game: each tick adds a random
  amount in [0, 30), modelled as an arbitrary step in that range. The bar
  can overshoot 100 for one tick before the clamping tick pulls it back to
  exactly 100 and the page navigates to the clue game.
 */
module Load {

  import opened Optional
  import Navigation
  import opened Ticker

  /** The exclusive upper bound of the random increment. */
  const MaxStep: real := 30.0

  /** Steps the random source can produce. */
  ghost predicate ValidSteps(steps: seq<real>) {
    forall i :: 0 <= i < |steps| ==> 0.0 <= steps[i] < MaxStep
  }

  /**
    Whatever steps the random source produces, the bar stays within
    [0, 130), at most one navigation is scheduled, and once it is the bar
    reads exactly 100 and the interval is stopped.
   */
  lemma Bounded(steps: seq<real>)
    requires ValidSteps(steps)
    ensures 0.0 <= Run(Start(), steps).progress < Full + MaxStep
    ensures Run(Start(), steps).navigations <= 1
    ensures Run(Start(), steps).navigations == 1 ==>
      Run(Start(), steps).progress == Full && !Run(Start(), steps).running
  {
    RunPreservesValid(Start(), steps, MaxStep);
  }

  /** Four large steps overshoot to 118; the next tick clamps the bar back
      to 100 (lowering it) and schedules the navigation. */
  lemma OvershootThenClamp()
    ensures Run(Start(), [29.5, 29.5, 29.5, 29.5]).progress == 118.0
    ensures Run(Start(), [29.5, 29.5, 29.5, 29.5, 0.0]) == Ticker(Full, false, 1)
  {
  }

  /** The page a scheduled navigation leads to. */
  function Destination(t: Ticker): (target: Option<Navigation.Route>)
    ensures target.Some? <==> t.navigations > 0
    ensures target.Some? ==> target == Navigation.Next(Navigation.Load)
    ensures target.Some? ==> target == Navigation.RouteOf("/detective")
  {
    if t.navigations > 0 then Some(Navigation.Detective) else None
  }
}

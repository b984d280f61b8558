/**
  The loading screen in front of the card game: the bar grows by a fixed
  step of 2 per tick and, once full, the page navigates to the game.
 */
module Loading {

  import opened Optional
  import Navigation
  import opened Ticker

  /** The fixed increment per tick. */
  const Step: real := 2.0

  /** The state after `n` ticks from mount. */
  function After(n: nat): Ticker {
    if n == 0 then Start() else Tick(After(n - 1), Step)
  }

  /**
    The whole schedule: after n <= 50 ticks the bar reads 2n (so it is
    even, within [0, 100] and never decreases) with the interval running;
    the 51st tick stops the interval at exactly 100 and schedules the one
    navigation; later ticks change nothing.
   */
  lemma {:induction false} Schedule(n: nat)
    ensures n <= 50 ==> After(n) == Ticker(2.0 * n as real, true, 0)
    ensures n > 50 ==> After(n) == Ticker(Full, false, 1)
  {
    if n > 0 {
      Schedule(n - 1);
    }
  }

  /** The bar reaches 100 after exactly 50 ticks and the navigation is
      scheduled on the 51st, not before. */
  lemma NavigatesOnTick51()
    ensures After(50).progress == Full && After(50).running
    ensures After(51).navigations == 1 && After(50).navigations == 0
  {
    Schedule(50);
    Schedule(51);
  }

  /** The page a scheduled navigation leads to. */
  function Destination(t: Ticker): (target: Option<Navigation.Route>)
    ensures target.Some? <==> t.navigations > 0
    ensures target.Some? ==> target == Navigation.Next(Navigation.Loading)
    ensures target.Some? ==> target == Navigation.RouteOf("/game")
  {
    if t.navigations > 0 then Some(Navigation.Game) else None
  }
}

/**
  The site's pages and the client-side navigations between them.

  Every page pushes at most one fixed route, so the route graph is a partial
  successor function. The letter page is the end of every path: its only
  action ("start over") stays on the page.
 */
module Navigation {

  import opened Optional

  datatype Route = Landing | Loading | Load | Detective | Game | Letter

  /** The URL path under which each page is served. */
  function PathOf(r: Route): string {
    match r
    case Landing => "/"
    case Loading => "/loading"
    case Load => "/load"
    case Detective => "/detective"
    case Game => "/game"
    case Letter => "/letter"
  }

  /** The page a URL path names, if any. */
  function RouteOf(path: string): (r: Option<Route>)
    ensures r.Some? ==> PathOf(r.value) == path
  {
    if path == "/" then Some(Landing)
    else if path == "/loading" then Some(Loading)
    else if path == "/load" then Some(Load)
    else if path == "/detective" then Some(Detective)
    else if path == "/game" then Some(Game)
    else if path == "/letter" then Some(Letter)
    else None
  }

  /** Paths and routes are in one-to-one correspondence, so each path a
      page pushes names exactly one page. */
  lemma PathRoundTrip(r: Route)
    ensures RouteOf(PathOf(r)) == Some(r)
  {
  }

  /** The page each page navigates to: the landing link, the two loading
      screens' completion, and the two minigames' completion or skip. Only
      the letter has no way out, and no page ever leads to a loading
      screen. */
  function Next(r: Route): (n: Option<Route>)
    ensures n.None? <==> r == Letter
    ensures r == Landing ==> n == RouteOf("/letter")
    ensures n != Some(Loading) && n != Some(Load) && n != Some(Landing)
  {
    match r
    case Landing => Some(Letter)
    case Loading => Some(Game)
    case Load => Some(Detective)
    case Detective => Some(Letter)
    case Game => Some(Letter)
    case Letter => None
  }

  /** The number of navigations that separate a page from the letter. */
  function Distance(r: Route): nat {
    match r
    case Letter => 0
    case Landing | Detective | Game => 1
    case Loading | Load => 2
  }

  /** Every navigation brings the visitor strictly closer to the letter,
      and the letter is the only page with no way out. */
  lemma NextApproachesLetter(r: Route)
    ensures Next(r).None? <==> r == Letter
    ensures Next(r).Some? ==> Distance(Next(r).value) == Distance(r) - 1
  {
  }

  /** The chain of pages a visitor passes through from `r` when every page
      takes its one forward navigation. */
  function PathToLetter(r: Route): (p: seq<Route>)
    decreases Distance(r)
    ensures |p| == Distance(r) + 1
    ensures p[0] == r && p[|p| - 1] == Letter
    ensures forall i :: 0 <= i < |p| - 1 ==> Next(p[i]) == Some(p[i + 1])
  {
    match Next(r)
    case None => [r]
    case Some(q) =>
      NextApproachesLetter(r);
      [r] + PathToLetter(q)
  }

  /** The page reached from `r` after `n` navigations (the letter stays put). */
  function Walk(r: Route, n: nat): Route
    decreases n
  {
    if n == 0 then r
    else match Next(r)
      case None => r
      case Some(q) => Walk(q, n - 1)
  }

  /** Whatever page a visitor starts on, two navigations are enough to
      reach the letter, and it is never left again. */
  lemma {:induction false} EveryPageReachesLetter(r: Route, n: nat)
    requires n >= Distance(r)
    ensures Walk(r, n) == Letter
    decreases n
  {
    if n > 0 {
      match Next(r)
      case None =>
      case Some(q) =>
        NextApproachesLetter(r);
        EveryPageReachesLetter(q, n - 1);
    }
  }

  /** From the landing page only the letter can be reached: the loading
      screens and the two minigames are never entered from it. (The
      minigames are entered only from the loading screens, which no page
      navigates to.) */
  lemma LandingSkipsMinigames(n: nat)
    ensures Walk(Landing, n) in {Landing, Letter}
  {
  }
}

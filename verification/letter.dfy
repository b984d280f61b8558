/**
  The letter page: four display flags driven by two buttons and three
  timers.

  - While the letter is open, a one-second timer shows its content. The
    timer is armed whenever `isOpen` turns true and cleared when it turns
    false.
  - "Celebrate" starts the celebration and a four-second timer that offers
    "start over". That timer is never cleared.
  - "Start over" resets all four flags and starts a half-second timer that
    reopens the letter. That timer is never cleared either.
 */
module Letter {

  /**
    The four flags the page renders from, plus its outstanding timers:
    whether the content timer is armed, and how many celebration and
    reopen timers are still to fire.
   */
  datatype Page = Page(
    isOpen: bool,
    showContent: bool,
    isCelebrating: bool,
    showStartOver: bool,
    contentTimerArmed: bool,
    celebrationTimers: nat,
    reopenTimers: nat)

  /** The page on mount: the letter is open and its content timer armed. */
  function Initial(): (p: Page)
    ensures p.isOpen && !p.showContent && !p.isCelebrating && !p.showStartOver
    ensures p.contentTimerArmed
  {
    Page(true, false, false, false, true, 0, 0)
  }

  // ---------------------------------------------------------------------
  // What is on screen
  // ---------------------------------------------------------------------

  /** The celebrate button. */
  predicate CelebrateShown(p: Page) {
    !p.isCelebrating && !p.showStartOver
  }

  /** The celebration block. */
  predicate CelebrationShown(p: Page) {
    p.isCelebrating
  }

  /** The start-over button. */
  predicate StartOverShown(p: Page) {
    p.showStartOver
  }

  // ---------------------------------------------------------------------
  // Events
  // ---------------------------------------------------------------------

  /** The content timer fires: the content appears. */
  function ContentTimer(p: Page): (p': Page)
    requires p.contentTimerArmed
    ensures p'.showContent && !p'.contentTimerArmed
    ensures p'.isOpen == p.isOpen && p'.isCelebrating == p.isCelebrating
    ensures p'.showStartOver == p.showStartOver
    ensures p'.celebrationTimers == p.celebrationTimers && p'.reopenTimers == p.reopenTimers
  {
    p.(showContent := true, contentTimerArmed := false)
  }

  /** The celebrate button: the celebration starts and its timer begins. */
  function Celebrate(p: Page): (p': Page)
    requires CelebrateShown(p)
    ensures CelebrationShown(p') && !CelebrateShown(p')
    ensures p'.celebrationTimers == p.celebrationTimers + 1
    ensures p'.isOpen == p.isOpen && p'.showContent == p.showContent
    ensures p'.showStartOver == p.showStartOver
    ensures p'.contentTimerArmed == p.contentTimerArmed && p'.reopenTimers == p.reopenTimers
  {
    p.(isCelebrating := true, celebrationTimers := p.celebrationTimers + 1)
  }

  /** The celebration timer fires: the start-over button appears; nothing
      else changes. */
  function CelebrationTimer(p: Page): (p': Page)
    requires p.celebrationTimers > 0
    ensures StartOverShown(p')
    ensures p'.celebrationTimers == p.celebrationTimers - 1
    ensures p'.isOpen == p.isOpen && p'.showContent == p.showContent
    ensures p'.isCelebrating == p.isCelebrating
    ensures p'.contentTimerArmed == p.contentTimerArmed && p'.reopenTimers == p.reopenTimers
  {
    p.(showStartOver := true, celebrationTimers := p.celebrationTimers - 1)
  }

  /** The start-over button: all four flags drop, closing the letter clears
      the content timer, and the reopen timer begins. */
  function StartOver(p: Page): (p': Page)
    requires StartOverShown(p)
    ensures !p'.isOpen && !p'.showContent && !p'.isCelebrating && !p'.showStartOver
    ensures !p'.contentTimerArmed
    ensures p'.reopenTimers == p.reopenTimers + 1
    ensures p'.celebrationTimers == p.celebrationTimers
  {
    Page(false, false, false, false, false, p.celebrationTimers, p.reopenTimers + 1)
  }

  /** The reopen timer fires: the letter opens again, which re-arms the
      content timer. If it is already open, setting the flag again changes
      nothing and the content effect does not rerun. */
  function ReopenTimer(p: Page): (p': Page)
    requires p.reopenTimers > 0
    ensures p'.isOpen
    ensures p'.reopenTimers == p.reopenTimers - 1
    ensures !p.isOpen ==> p'.contentTimerArmed
    ensures p.isOpen ==> p'.contentTimerArmed == p.contentTimerArmed
    ensures p'.showContent == p.showContent && p'.isCelebrating == p.isCelebrating
    ensures p'.showStartOver == p.showStartOver && p'.celebrationTimers == p.celebrationTimers
  {
    if p.isOpen then p.(reopenTimers := p.reopenTimers - 1)
    else p.(isOpen := true, contentTimerArmed := true, reopenTimers := p.reopenTimers - 1)
  }

  datatype Event = ContentTimerFires | CelebrateClicked | CelebrationTimerFires
                 | StartOverClicked | ReopenTimerFires

  /** A button event needs its button on screen; a timer event needs its
      timer outstanding. */
  predicate Enabled(p: Page, e: Event) {
    match e
    case ContentTimerFires => p.contentTimerArmed
    case CelebrateClicked => CelebrateShown(p)
    case CelebrationTimerFires => p.celebrationTimers > 0
    case StartOverClicked => StartOverShown(p)
    case ReopenTimerFires => p.reopenTimers > 0
  }

  /** One event; one that cannot be delivered changes nothing. */
  function Step(p: Page, e: Event): Page {
    if !Enabled(p, e) then p
    else match e
      case ContentTimerFires => ContentTimer(p)
      case CelebrateClicked => Celebrate(p)
      case CelebrationTimerFires => CelebrationTimer(p)
      case StartOverClicked => StartOver(p)
      case ReopenTimerFires => ReopenTimer(p)
  }

  function Run(p: Page, events: seq<Event>): Page
    decreases |events|
  {
    if events == [] then p else Run(Step(p, events[0]), events[1..])
  }

  // ---------------------------------------------------------------------
  // Properties
  // ---------------------------------------------------------------------

  /**
    What holds on every reachable page: the start-over button is only
    offered during a celebration; content is only shown, and its timer only
    armed, while the letter is open, and never both; and a celebration
    timer is outstanding only during a celebration whose start-over button
    has not appeared yet (so there is at most one).
   */
  ghost predicate Valid(p: Page) {
    && (p.showStartOver ==> p.isCelebrating)
    && (p.showContent ==> p.isOpen)
    && (p.contentTimerArmed ==> p.isOpen && !p.showContent)
    && p.celebrationTimers <= 1
    && (p.celebrationTimers == 1 ==> p.isCelebrating && !p.showStartOver)
  }

  lemma InitialValid()
    ensures Valid(Initial())
  {
  }

  lemma StepPreservesValid(p: Page, e: Event)
    requires Valid(p)
    ensures Valid(Step(p, e))
  {
  }

  /** Every event sequence from mount keeps the invariant; in particular the
      start-over button never appears without the celebration. */
  lemma {:induction false} RunPreservesValid(p: Page, events: seq<Event>)
    requires Valid(p)
    ensures Valid(Run(p, events))
    ensures StartOverShown(Run(p, events)) ==> CelebrationShown(Run(p, events))
    decreases |events|
  {
    if events != [] {
      StepPreservesValid(p, events[0]);
      RunPreservesValid(Step(p, events[0]), events[1..]);
    }
  }

  /** On every reachable page exactly one of the celebrate button and the
      celebration block is on screen, and the start-over button only ever
      shows under the celebration. */
  lemma ScreenIsConsistent(p: Page)
    requires Valid(p)
    ensures CelebrateShown(p) != CelebrationShown(p)
    ensures StartOverShown(p) ==> !CelebrateShown(p)
  {
  }

  /** Starting over and letting both timers fire returns the page to the
      opened letter with its celebrate button, as after the first opening. */
  lemma StartOverReopensLetter(p: Page)
    requires Valid(p) && StartOverShown(p) && p.reopenTimers == 0
    ensures var q := Run(p, [StartOverClicked, ReopenTimerFires, ContentTimerFires]);
      && q.isOpen && q.showContent && CelebrateShown(q)
      && !q.contentTimerArmed && q.reopenTimers == 0
      && q == Run(Initial(), [ContentTimerFires]).(celebrationTimers := p.celebrationTimers)
  {
  }
}

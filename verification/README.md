# Birthday greeting site — a Dafny model of its page logic

The site is a short chain of pages for one recipient: a landing page, two
loading screens, two minigames (a clue-reveal game and a card-matching
game), a final animated letter, and a small endpoint that appends visitor
feedback to a text log. The little logic it has lives in React state
updates, effects and timers. This project restates that logic as pure state
machines: every button press and every timer callback becomes an explicit
event, and each page has a step function per event.

Modules, one per page plus two shared ones:

- `Navigation` (`navigation.dfy`): the routes, the one forward navigation
  of each page, and the proof that every page leads to the letter.
- `CardMatch` (`card_match.dfy`): the memory game. It covers the deck of
  eight emoji pairs and the guarded card click. The match timer and the
  mismatch timer are separate events. Also modelled: the counters, the
  completion rule and the continue/skip buttons.
- `Detective` (`detective.dfy`): the five clues, the reveal click, the
  completion effect and its one scheduled navigation.
- `Ticker` (`ticker.dfy`): the interval-driven progress bar shared by both
  loading screens. `Loading` (`loading.dfy`) uses the fixed step of 2.
  `Load` (`load.dfy`) uses an arbitrary step in [0, 30).
- `Letter` (`letter.dfy`): the four display flags, the two buttons and the
  three timers, and what is on screen for each combination of flags.
- `Feedback` (`feedback.dfy`): validation of the request body, the log
  entry format, the append-only log, and the mapping of outcomes to HTTP
  responses.
- `Optional` (`optional.dfy`): the `Option` type.

The card game and the letter page are modelled in the same way. An
`Event` datatype lists what can happen. `Enabled` says when an event can be
delivered: its button is rendered, or its timer is outstanding. `Step`
applies the event, and an event that cannot be delivered changes nothing.
`Run` applies a sequence of events. `Valid` is the page's invariant, proved
to hold after every sequence of events.

The other pages are smaller. In the clue game the only event is a click:
`Detective.Click` is a reveal followed by the completion effect, and
`RunClicks` applies a sequence of clicks. Its one navigation is a counter
of scheduled navigations rather than an event, and `Detective.Valid` is
proved to hold after every sequence of clicks. The two loading screens
share `Ticker`. There `Tick` is one interval callback with a given step,
`Run` applies a sequence of steps, and `Teardown` (the unmount cleanup)
stands outside `Run`. `Ticker.Valid` is the invariant for steps below a
bound. `Loading` and `Load` have no invariant of their own: `Loading`
computes its exact schedule (`Loading.Schedule`), and `Load` instantiates
the ticker's invariant with its bound (`Load.Bounded`).

In a few places the code behaves differently from what a reader might
expect. The model follows the code:

- The clue counter counts clicks, not distinct clues. Five clicks on one
  clue complete the game while four clues are still hidden
  (`Detective.FiveClicksOnOneClue`).
- The skip button of the card game appears after any click, even one the
  game ignores. It does not wait for a completed move.
- The endpoint also rejects an empty string, because an empty string is
  falsy. A blank string such as `"   "` is accepted.
- The random loading bar can read above 100 for one tick. The next tick
  pulls it back down to exactly 100, so the bar's value can decrease on
  that one tick.
- Teardown of a loading screen clears only the interval. A navigation timer
  that is already scheduled still fires. The letter page never clears its
  celebration timer or its reopen timer.
- The landing page links straight to the letter. No page navigates to
  `/loading` or `/load`, and the minigames are entered only from those two
  screens (`/loading` leads to `/game`, `/load` to `/detective`). So
  nothing reachable from the landing page leads to a loading screen or a
  minigame (`Navigation.LandingSkipsMinigames`).

## Model

| member | source | states |
|---|---|---|
| `Navigation.Next` | app/page.tsx:53 | The route graph's edges. Only the letter has no outgoing navigation, and no page navigates to the landing page, `/loading` or `/load`. The edges out of the loading screens and the minigames are stated, with their paths, by `Loading.Destination`, `Load.Destination`, `Detective.Destination` and `CardMatch.Proceed`. The landing page's link `/letter` names its successor. |
| `Navigation.LandingSkipsMinigames` | app/page.tsx:53 | Every page reachable from the landing page is the landing page or the letter; the loading screens and the minigames never are. |
| `Navigation.PathRoundTrip` | app/page.tsx:53 | Paths and pages correspond one to one, so every path a page links or pushes to names exactly one page. |
| `Navigation.NextApproachesLetter` | app/page.tsx:53 | Only the letter has no outgoing navigation. Every other page's one navigation lowers its distance to the letter by one. |
| `Navigation.PathToLetter` | app/page.tsx:53 | Over the five edges (app/page.tsx:53, app/loading/page.tsx:21, app/load/page.tsx:17, app/detective/page.tsx:69, app/game/page.tsx:93): from any page, following each page's forward navigation gives a chain of at most three pages. The chain starts at that page and ends at the letter. |
| `Navigation.EveryPageReachesLetter` | app/page.tsx:53 | Over the same five edges: after two or more navigations, a visitor starting on any page is on the letter and stays there. |
| `CardMatch.DeckHasPairs` | app/game/page.tsx:12-13 | Each of the eight emoji occurs exactly twice in the unshuffled deck. |
| `CardMatch.Deal` | app/game/page.tsx:26-36 | Any permutation of the deck gives 16 cards, each emoji exactly twice. Every card starts face down and unmatched. Nothing is pending, both counters are 0, and the game is neither complete nor started. The invariant holds. |
| `CardMatch.Click` | app/game/page.tsx:39-57 | Every click sets `started`, even an ignored one. A click on a face-up card, or while two cards are pending, changes nothing else. An accepted click turns up only that card and appends its index to the pending list. The move counter goes up by one exactly when the pending list reaches two. |
| `CardMatch.ResolveMatch` | app/game/page.tsx:63-76 | Both pending cards become matched and every other card is unchanged. The match counter goes up by one and the pending list is cleared. The game becomes complete when the new count is eight. |
| `CardMatch.ResolveMismatch` | app/game/page.tsx:79-85 | Both pending cards are turned face down and every other card is unchanged. The pending list is cleared. The match counter, the move counter and the completion flag are unchanged. |
| `CardMatch.Proceed` | app/game/page.tsx:91-94 | A button to leave the game is on screen exactly when the game is complete (continue) or started (skip). Both buttons lead to the letter, which is the game page's successor in the route graph. Its path `/letter` names it. |
| `CardMatch.ClickPreservesValid` | app/game/page.tsx:43-53 | A click keeps the invariant: the pending cards stay distinct and are exactly the face-up unmatched cards. Every match has cost a move. |
| `CardMatch.ResolveMatchPreservesValid` | app/game/page.tsx:63-75 | Resolving a match keeps the invariant. Matched cards stay twice the match count, and completion coincides with eight matches. |
| `CardMatch.ResolveMismatchPreservesValid` | app/game/page.tsx:79-85 | Resolving a mismatch keeps the invariant. No face-up unmatched card is left. |
| `CardMatch.StepPreservesValid` | app/game/page.tsx:39-86 | Every deliverable event keeps the invariant. |
| `CardMatch.RunPreservesValid` | app/game/page.tsx:39-87 | Every event sequence keeps the invariant, and the match counter never exceeds eight. |
| `CardMatch.PlayFromDealIsValid` | app/game/page.tsx:26-87 | In every play from a fresh deal, the game is complete exactly when the match counter is eight. |
| `CardMatch.MatchesBounded` | app/game/page.tsx:72-73 | In a valid state, matched cards number twice the match counter, which is at most 16 cards. |
| `CardMatch.PairIsResolvedOneWay` | app/game/page.tsx:59-86 | When two cards are pending, exactly one of the match timer and the mismatch timer is due. |
| `CardMatch.CompleteIffAllMatched` | app/game/page.tsx:72-73 | The game is complete exactly when all 16 cards are matched. |
| `CardMatch.CompleteGameIsFrozen` | app/game/page.tsx:43 | After completion every click is ignored apart from setting `started`, and no resolution timer can be due. |
| `CardMatch.MovesCountComparisons` | app/game/page.tsx:56-57 | A click adds a move exactly when it is accepted with one card already pending, and then adds exactly one. |
| `Detective.NewBoard` | app/detective/page.tsx:23-55 | The mount effect installs five clues with ids 1 to 5, all hidden. The counter is 0, the game is not complete and no navigation is scheduled. |
| `Detective.RevealIn` | app/detective/page.tsx:60 | Every clue with the clicked id becomes revealed and stays revealed. Ids, texts and positions are unchanged, and so is every other clue. |
| `Detective.Reveal` | app/detective/page.tsx:58-62 | A click reveals the clicked clue and keeps every other field and clue. It adds one to the counter, even when the clue was already revealed. |
| `Detective.CheckCompletion` | app/detective/page.tsx:64-72 | The effect sets completion and schedules one navigation exactly when the counter is five and the game is not yet complete. Otherwise it changes nothing. |
| `Detective.Destination` | app/detective/page.tsx:68-70 | A navigation exists once one is scheduled, and it leads to the letter, the clue game's successor in the route graph. Its path `/letter` names it. |
| `Detective.RevealAddsAtMostOne` | app/detective/page.tsx:60 | With distinct ids, one reveal adds at most one revealed clue. An id no clue has changes nothing. |
| `Detective.ClickPreservesValid` | app/detective/page.tsx:58-72 | A click keeps the invariant. The clues keep their initial ids, texts and positions, and the counter is at least the number of revealed clues. Completion holds exactly when the counter is at least five, with one navigation scheduled. |
| `Detective.NewBoardValid` | app/detective/page.tsx:19-55 | The mounted board satisfies the invariant. |
| `Detective.RunClicksPreservesValid` | app/detective/page.tsx:58-72 | Over any clicks the counter grows by exactly the number of clicks. Once the game is complete, no further navigation is scheduled. |
| `Detective.CompletionAfterFiveClicks` | app/detective/page.tsx:61-71 | From a fresh board the game is complete exactly after five or more clicks, on any clues and repeats included. Exactly one navigation is scheduled then, and none before. |
| `Detective.RepeatRevealOnlyCounts` | app/detective/page.tsx:60-61 | Clicking an already revealed clue leaves the clues unchanged and still adds one to the counter. |
| `Detective.RepeatClicksKeepClues` | app/detective/page.tsx:60 | Any number of clicks on an already revealed clue leave the clues unchanged. |
| `Detective.FiveClicksOnOneClue` | app/detective/page.tsx:61-65 | Five clicks on clue 1 complete the game with only one clue revealed. |
| `Ticker.Update` | app/loading/page.tsx:17-26 | The updater finishes exactly when the previous progress is at least 100, and then returns exactly 100. Otherwise it returns the previous progress plus the step. |
| `Ticker.Tick` | app/loading/page.tsx:16-27 | A tick runs the updater only while the interval is registered. The tick that finishes stops the interval and schedules one navigation. |
| `Ticker.Teardown` | app/loading/page.tsx:29 | Cleanup clears the interval and keeps the progress and any scheduled navigation. |
| `Ticker.TickPreservesValid` | app/load/page.tsx:12-23 | A tick whose step is in [0, max) keeps the progress in [0, 100 + max). A running interval has scheduled nothing. At most one navigation is scheduled, and only with the bar at 100 and the interval stopped. |
| `Ticker.RunPreservesValid` | app/load/page.tsx:11-26 | The same invariant holds after any sequence of such ticks. |
| `Ticker.TickMonotoneUntilClamp` | app/load/page.tsx:14-21 | With a non-negative step, a tick never lowers the progress. The one exception is the clamping tick of a running bar above 100, which sets it to 100. |
| `Ticker.ClampingTick` | app/load/page.tsx:14-19 | A running bar at or above 100 becomes exactly 100 on the next tick. That tick stops the interval and schedules one navigation. |
| `Ticker.NoTickAfterTeardown` | app/load/page.tsx:25 | After teardown, no sequence of ticks changes anything. |
| `Loading.Schedule` | app/loading/page.tsx:12-25 | After n ticks with n at most 50, the bar reads 2n with the interval running. Every later tick leaves the bar at exactly 100, the interval stopped and one navigation scheduled. |
| `Loading.NavigatesOnTick51` | app/loading/page.tsx:18-23 | The bar is full after 50 ticks. The navigation is scheduled on the 51st tick and not before. |
| `Loading.Destination` | app/loading/page.tsx:20-22 | A scheduled navigation leads to the card game, this screen's successor in the route graph. Its path `/game` names it. |
| `Load.Bounded` | app/load/page.tsx:9-21 | For any steps in [0, 30) the bar stays in [0, 130). At most one navigation is scheduled, and only with the bar at exactly 100 and the interval stopped. |
| `Load.OvershootThenClamp` | app/load/page.tsx:14-21 | Four steps of 29.5 take the bar to 118. The next tick lowers it to exactly 100 and schedules the navigation. |
| `Load.Destination` | app/load/page.tsx:16-18 | A scheduled navigation leads to the clue game, this screen's successor in the route graph. Its path `/detective` names it. |
| `Letter.Initial` | app/letter/page.tsx:15-18 | The letter starts open with the other three flags false, and its content timer is armed. |
| `Letter.ContentTimer` | app/letter/page.tsx:28-41 | The content timer shows the content and changes no other flag. |
| `Letter.Celebrate` | app/letter/page.tsx:43-45 | Celebrate starts the celebration, which replaces the celebrate button, and starts one celebration timer. |
| `Letter.CelebrationTimer` | app/letter/page.tsx:46-48 | The celebration timer shows the start-over button and changes nothing else. |
| `Letter.StartOver` | app/letter/page.tsx:51-59 | Start over sets all four flags false and clears the content timer. It starts one reopen timer. |
| `Letter.ReopenTimer` | app/letter/page.tsx:60-63 | The reopen timer opens the letter. If the letter was closed, the content timer is armed again. |
| `Letter.InitialValid` | app/letter/page.tsx:15-31 | The initial page satisfies the invariant. |
| `Letter.StepPreservesValid` | app/letter/page.tsx:28-63 | Every deliverable event keeps the invariant. Start-over is only shown during a celebration. Content is shown, and its timer armed, only while the letter is open. At most one celebration timer is outstanding. |
| `Letter.RunPreservesValid` | app/letter/page.tsx:43-63 | After any event sequence the invariant holds, so the start-over button never appears without the celebration. |
| `Letter.ScreenIsConsistent` | app/letter/page.tsx:431-522 | In every valid state exactly one of the celebrate button and the celebration block is on screen. The start-over button never appears together with the celebrate button. |
| `Letter.StartOverReopensLetter` | app/letter/page.tsx:28-63 | Start over, then the reopen timer, then the content timer return the page to the opened letter with its celebrate button. This is the state the first opening reaches. |
| `Feedback.Classify` | app/api/feedback/route.ts:7-11 | An unparseable body or a `null` body throws, giving an internal error. A body is accepted exactly when its `feedback` field is a non-empty string, blank text included. Every other body is invalid. |
| `Feedback.Entry` | app/api/feedback/route.ts:14-15 | The entry is the timestamp in brackets, a newline, the text and a blank line. The text is copied character for character. |
| `Feedback.EntryRoundTrip` | app/api/feedback/route.ts:14-15 | For a timestamp without a closing bracket, as ISO-8601 timestamps are, every entry reads back as exactly its timestamp and text. |
| `Feedback.Post` | app/api/feedback/route.ts:5-33 | An unreadable body gives 500 "Internal server error". An invalid one gives 400 "Invalid feedback data". A failed append gives 500 "Failed to save feedback". In all three cases the log is unchanged. An accepted text with a successful append gives 200 `{success: true}` and the old log followed by the entry. The log only grows, and only with a 200. |
| `Feedback.PostAppendsSavedEntry` | app/api/feedback/route.ts:21-28 | One request extends the log by exactly its saved entry, and that entry is non-empty exactly when the request is answered with 200. |
| `Feedback.ServeIsAppendOnly` | app/api/feedback/route.ts:22 | After any sequence of requests the log is the old log followed by the entries of the 200-answered requests, in the order their appends run. There is one response per request. |
| `Feedback.Examples` | app/api/feedback/route.ts:5-33 | Saving "great job" appends its entry. An empty object, an empty string and a number each give 400. Blank text is saved. A `null` body and an unparseable body each give 500. A failed append gives 500. |

## Left out

- Animation, styling, fonts, the floating hearts and confetti, particle
  positions and the letter's text are presentation only, so they are not
  modelled.
- Sound cues are not modelled. Every `playSound` call and the letter's
  background audio (play on opening, pause on start over) are no-ops here,
  because playback failures are swallowed and never affect state. The clue
  game's completion cue asks for a sound name the sound provider does not
  define, so it plays nothing anyway.
- Real time is not modelled: the 80 ms and 300 ms intervals and the 500,
  1000, 2000 and 4000 ms timeouts. Each callback is an event that may fire
  whenever its timer is outstanding, so the model allows orders that real
  delays would rule out.
- React batching and render closures are not modelled. Each handler reads
  the state left by the previous event, which is what the pages observe
  because their handlers never run twice within one render.
- The random comparator sort of the card deck is not modelled. Any
  permutation of the deck is accepted instead.
- The random float increment of the second loading screen is not modelled.
  It is replaced by an exact rational step in [0, 30). Rounding of the
  displayed percentage is not modelled either.
- JSON parsing of the request body, reading the clock and the file append
  are host I/O, so they are parameters: the parsed body (or a parse
  failure), the timestamp string and the append outcome. A failed append
  is assumed to leave the log unchanged. The log is a string.
- Text is modelled as a sequence of Unicode characters. JavaScript's UTF-16
  code units and the log file's UTF-8 encoding are not modelled. A text
  holding a lone surrogate (such as `"\ud800"`) passes validation, but the
  file would receive U+FFFD in its place; the model cannot express that
  input, so "character for character" holds only for well-formed text.
- Concurrency is not modelled. The handler is asynchronous and takes no
  lock, so two requests in flight together can append in either order.
  The model handles requests one at a time: the request sequence is the
  order in which their appends run, and each append is one atomic write.
- The endpoint's `console.error` logging of a failed append and of an
  unexpected error is a side effect on the server console only, so it is
  not modelled.
- `NaN` is not modelled, because a JSON number cannot be `NaN`.
- The layout, the build configuration and the landing page's markup are
  static. The landing page's one link is an edge of the route graph.
- A client-local editable feedback journal is not part of this model: no
  such code exists in the site.
- CardMatch.Click: requires the clicked index to name a card of the deck.
  The page only attaches clicks to rendered cards, and any other index
  would throw in the source.
- Loading.Schedule and Load.Bounded: start from the state after mount.
  Re-running the mount effect (as a development-mode double mount would)
  is not modelled.

/**
  The memory-matching minigame: sixteen face-down cards holding eight
  birthday emoji twice each. The player turns cards over two at a time;
  a pair with equal faces stays up as a match, any other pair is turned
  back down after a delay.

  The page's two delayed resolutions (the match timer and the longer
  mismatch timer) are modelled as explicit events, each enabled exactly
  when the click that completed a pair scheduled it.
 */
module CardMatch {

  import opened Optional
  import Navigation

  /** The eight faces: birthday cake, wrapped gift, balloon, party popper,
      confetti ball, sparkling heart, rose and shortcake. */
  datatype Emoji = Cake | Gift | Balloon | PartyPopper | ConfettiBall | SparklingHeart | Rose | Shortcake

  /** The distinct faces, in the order the page lists them. */
  const Emojis: seq<Emoji> := [Cake, Gift, Balloon, PartyPopper, ConfettiBall, SparklingHeart, Rose, Shortcake]

  /** The unshuffled deck: every face twice. */
  const Deck: seq<Emoji> := Emojis + Emojis

  /** The number of pairs to find; the game is won when this many are matched. */
  const PairCount: nat := |Emojis|

  datatype Card = Card(emoji: Emoji, flipped: bool, matched: bool)

  /**
    The page state: the cards, the indices turned up and awaiting
    resolution (in click order), the number of pairs matched, the number
    of pair comparisons made, and the two flags that control which
    buttons are rendered.
   */
  datatype Game = Game(
    cards: seq<Card>,
    pending: seq<nat>,
    matches: nat,
    moves: nat,
    complete: bool,
    started: bool)

  // ---------------------------------------------------------------------
  // Counting helpers
  // ---------------------------------------------------------------------

  /** The faces of a row of cards, position by position. */
  function Faces(cards: seq<Card>): (faces: seq<Emoji>)
    ensures |faces| == |cards|
    ensures forall i :: 0 <= i < |cards| ==> faces[i] == cards[i].emoji
  {
    seq(|cards|, i requires 0 <= i < |cards| => cards[i].emoji)
  }

  /** The number of matched cards. It is the length of the row exactly
      when every card is matched. */
  function MatchedCount(cards: seq<Card>): (n: nat)
    ensures n <= |cards|
    ensures n == |cards| <==> forall i :: 0 <= i < |cards| ==> cards[i].matched
  {
    if cards == [] then 0
    else
      var rest := MatchedCount(cards[1..]);
      assert forall i :: 1 <= i < |cards| ==> cards[i] == cards[1..][i - 1];
      (if cards[0].matched then 1 else 0) + rest
  }

  /** Replacing one card changes the matched count only by that card's own
      contribution. */
  lemma {:induction false} MatchedCountUpdate(cards: seq<Card>, i: nat, c: Card)
    requires i < |cards|
    ensures MatchedCount(cards[i := c])
         == MatchedCount(cards) - (if cards[i].matched then 1 else 0) + (if c.matched then 1 else 0)
    decreases |cards|
  {
    if i > 0 {
      assert cards[i := c][1..] == cards[1..][i - 1 := c];
      MatchedCountUpdate(cards[1..], i - 1, c);
    } else {
      assert cards[i := c][1..] == cards[1..];
    }
  }

  /** Changing only the flags of a card leaves the faces untouched. */
  lemma FacesUpdate(cards: seq<Card>, i: nat, c: Card)
    requires i < |cards| && c.emoji == cards[i].emoji
    ensures Faces(cards[i := c]) == Faces(cards)
  {
  }

  // ---------------------------------------------------------------------
  // Dealing
  // ---------------------------------------------------------------------

  /** A shuffle of the deck: any arrangement of its sixteen faces. The page
      sorts with a random comparator, which yields some permutation. */
  ghost predicate IsShuffle(order: seq<Emoji>) {
    multiset(order) == multiset(Deck)
  }

  /** Every face occurs exactly twice in the deck. */
  lemma DeckHasPairs(e: Emoji)
    ensures multiset(Deck)[e] == 2
  {
  }

  /** A shuffle has sixteen cards and every face twice, as the deck does. */
  lemma ShuffleHasPairs(order: seq<Emoji>)
    requires IsShuffle(order)
    ensures |order| == |Deck|
    ensures forall e :: multiset(order)[e] == 2
  {
    assert |order| == |multiset(order)| == |Deck|;
    forall e ensures multiset(order)[e] == 2 {
      DeckHasPairs(e);
    }
  }

  /** The state the page's mount effect installs: the shuffled deck face
      down, nothing pending, both counters at zero. */
  function Deal(order: seq<Emoji>): (g: Game)
    requires IsShuffle(order)
    ensures |g.cards| == 16
    ensures forall e :: multiset(Faces(g.cards))[e] == 2
    ensures forall i :: 0 <= i < |g.cards| ==> !g.cards[i].flipped && !g.cards[i].matched
    ensures g.pending == [] && g.matches == 0 && g.moves == 0
    ensures !g.complete && !g.started
    ensures Valid(g)
  {
    var cards := seq(|order|, i requires 0 <= i < |order| => Card(order[i], false, false));
    assert Faces(cards) == order;
    ShuffleHasPairs(order);
    MatchedCountZero(cards);
    Game(cards, [], 0, 0, false, false)
  }

  lemma {:induction false} MatchedCountZero(cards: seq<Card>)
    requires forall i :: 0 <= i < |cards| ==> !cards[i].matched
    ensures MatchedCount(cards) == 0
  {
    if cards != [] {
      MatchedCountZero(cards[1..]);
    }
  }

  // ---------------------------------------------------------------------
  // The invariant
  // ---------------------------------------------------------------------

  /**
    What holds of every state the page reaches: the deck keeps its faces;
    matched cards stay face up; at most two distinct cards are pending and
    they are exactly the face-up unmatched ones; matched cards number two
    per match; the game is complete exactly when all pairs are matched;
    and every match cost one move.
   */
  ghost predicate Valid(g: Game) {
    && DeckIntact(g)
    && FaceUpTracked(g)
    && CountersAgree(g)
  }

  /** The cards keep the sixteen faces of the deck. */
  ghost predicate DeckIntact(g: Game) {
    && |g.cards| == |Deck|
    && multiset(Faces(g.cards)) == multiset(Deck)
  }

  /** Matched cards stay face up, and the face-up unmatched cards are
      exactly the (at most two, distinct) pending ones. */
  predicate FaceUpTracked(g: Game) {
    && (forall i :: 0 <= i < |g.cards| && g.cards[i].matched ==> g.cards[i].flipped)
    && |g.pending| <= 2
    && (forall k :: 0 <= k < |g.pending| ==>
          g.pending[k] < |g.cards| && g.cards[g.pending[k]].flipped && !g.cards[g.pending[k]].matched)
    && (|g.pending| == 2 ==> g.pending[0] != g.pending[1])
    && (forall i :: 0 <= i < |g.cards| && g.cards[i].flipped && !g.cards[i].matched ==> i in g.pending)
  }

  /** Two matched cards per match, completion exactly at the last pair, and
      one move at least per match (plus one for a pair awaiting resolution). */
  predicate CountersAgree(g: Game) {
    && MatchedCount(g.cards) == 2 * g.matches
    && (g.complete <==> g.matches == PairCount)
    && g.matches + |g.pending| / 2 <= g.moves
  }

  // ---------------------------------------------------------------------
  // Clicking a card
  // ---------------------------------------------------------------------

  /** A click is ignored when the card is already face up (matched cards
      stay face up) or when two cards are already awaiting resolution. */
  predicate ClickIgnored(g: Game, i: nat)
    requires i < |g.cards|
  {
    g.cards[i].flipped || |g.pending| == 2
  }

  /**
    A click on card `i`. The page marks the game as started before it
    looks at the guard, so even an ignored click starts the game. An
    accepted click turns card `i` up and appends it to the pending list;
    the click that completes a pair counts one move.
   */
  function Click(g: Game, i: nat): (g': Game)
    requires i < |g.cards|
    ensures g'.started
    ensures g'.matches == g.matches && g'.complete == g.complete
    ensures ClickIgnored(g, i) ==> g' == g.(started := true)
    ensures !ClickIgnored(g, i) ==>
      && |g'.cards| == |g.cards|
      && g'.cards[i] == g.cards[i].(flipped := true)
      && (forall j :: 0 <= j < |g.cards| && j != i ==> g'.cards[j] == g.cards[j])
      && g'.pending == g.pending + [i]
      && g'.moves == g.moves + (if |g'.pending| == 2 then 1 else 0)
  {
    var g1 := g.(started := true);
    if ClickIgnored(g, i) then g1
    else
      var pending := g.pending + [i];
      g1.(cards := g.cards[i := g.cards[i].(flipped := true)],
          pending := pending,
          moves := if |pending| == 2 then g.moves + 1 else g.moves)
  }

  // ---------------------------------------------------------------------
  // The two delayed resolutions
  // ---------------------------------------------------------------------

  /** Two cards are pending and show the same face: the click that turned
      the second one scheduled the match timer. */
  predicate MatchDue(g: Game) {
    && |g.pending| == 2
    && g.pending[0] < |g.cards| && g.pending[1] < |g.cards|
    && g.cards[g.pending[0]].emoji == g.cards[g.pending[1]].emoji
  }

  /** Two cards are pending and show different faces: the click that turned
      the second one scheduled the mismatch timer. */
  predicate MismatchDue(g: Game) {
    && |g.pending| == 2
    && g.pending[0] < |g.cards| && g.pending[1] < |g.cards|
    && g.cards[g.pending[0]].emoji != g.cards[g.pending[1]].emoji
  }

  /** The match timer: both pending cards become matched, the match counter
      goes up by one, the pending list is cleared, and the game is marked
      complete when this was the last pair. */
  function ResolveMatch(g: Game): (g': Game)
    requires MatchDue(g)
    ensures |g'.cards| == |g.cards|
    ensures g'.cards[g.pending[0]].matched && g'.cards[g.pending[1]].matched
    ensures forall j :: 0 <= j < |g.cards| ==>
      && g'.cards[j].emoji == g.cards[j].emoji
      && g'.cards[j].flipped == g.cards[j].flipped
      && (j != g.pending[0] && j != g.pending[1] ==> g'.cards[j] == g.cards[j])
    ensures g'.matches == g.matches + 1 && g'.pending == []
    ensures g'.complete == (g.complete || g'.matches == PairCount)
    ensures g'.moves == g.moves && g'.started == g.started
  {
    var first, second := g.pending[0], g.pending[1];
    var cards1 := g.cards[first := g.cards[first].(matched := true)];
    var cards2 := cards1[second := cards1[second].(matched := true)];
    g.(cards := cards2,
       matches := g.matches + 1,
       pending := [],
       complete := if g.matches + 1 == PairCount then true else g.complete)
  }

  /** The mismatch timer: both pending cards are turned face down again and
      the pending list is cleared; the match counter does not move. */
  function ResolveMismatch(g: Game): (g': Game)
    requires MismatchDue(g)
    ensures |g'.cards| == |g.cards|
    ensures !g'.cards[g.pending[0]].flipped && !g'.cards[g.pending[1]].flipped
    ensures forall j :: 0 <= j < |g.cards| ==>
      && g'.cards[j].emoji == g.cards[j].emoji
      && g'.cards[j].matched == g.cards[j].matched
      && (j != g.pending[0] && j != g.pending[1] ==> g'.cards[j] == g.cards[j])
    ensures g'.pending == []
    ensures g'.matches == g.matches && g'.moves == g.moves
    ensures g'.complete == g.complete && g'.started == g.started
  {
    var first, second := g.pending[0], g.pending[1];
    var cards1 := g.cards[first := g.cards[first].(flipped := false)];
    var cards2 := cards1[second := cards1[second].(flipped := false)];
    g.(cards := cards2, pending := [])
  }

  // ---------------------------------------------------------------------
  // Leaving the game
  // ---------------------------------------------------------------------

  /** The "continue" button is rendered once the game is complete. */
  predicate ContinueShown(g: Game) {
    g.complete
  }

  /** The "skip" button is rendered while the game is unfinished but has
      been started by at least one click. */
  predicate SkipShown(g: Game) {
    !g.complete && g.started
  }

  /** Both buttons call the same handler, which pushes the letter page;
      when neither is rendered there is nothing to press. */
  function Proceed(g: Game): (target: Option<Navigation.Route>)
    ensures target.Some? <==> g.complete || g.started
    ensures target.Some? ==> Navigation.Next(Navigation.Game) == target
    ensures target.Some? ==> target == Navigation.RouteOf("/letter")
  {
    if ContinueShown(g) || SkipShown(g) then Some(Navigation.Letter) else None
  }

  // ---------------------------------------------------------------------
  // Events and traces
  // ---------------------------------------------------------------------

  datatype Event = ClickCard(index: nat) | MatchTimer | MismatchTimer

  /** An event can be delivered: a card exists at the clicked index, or the
      corresponding timer has been scheduled. */
  predicate Enabled(g: Game, e: Event) {
    match e
    case ClickCard(i) => i < |g.cards|
    case MatchTimer => MatchDue(g)
    case MismatchTimer => MismatchDue(g)
  }

  /** One event; an event that cannot be delivered changes nothing. */
  function Step(g: Game, e: Event): Game {
    if !Enabled(g, e) then g
    else match e
      case ClickCard(i) => Click(g, i)
      case MatchTimer => ResolveMatch(g)
      case MismatchTimer => ResolveMismatch(g)
  }

  /** A sequence of events, delivered in order. */
  function Run(g: Game, events: seq<Event>): Game
    decreases |events|
  {
    if events == [] then g else Run(Step(g, events[0]), events[1..])
  }

  // ---------------------------------------------------------------------
  // Properties
  // ---------------------------------------------------------------------

  /** An accepted click keeps the invariant: the new pending card is a
      different card from the one already pending, and a completed pair
      costs exactly one move. */
  lemma ClickPreservesValid(g: Game, i: nat)
    requires Valid(g) && i < |g.cards|
    ensures Valid(Click(g, i))
  {
    if !ClickIgnored(g, i) {
      ClickKeepsDeck(g, i);
      ClickKeepsFaceUp(g, i);
      ClickKeepsCounters(g, i);
    }
  }

  /** Turning a card up does not change any face. */
  lemma ClickKeepsDeck(g: Game, i: nat)
    requires DeckIntact(g) && i < |g.cards| && !ClickIgnored(g, i)
    ensures DeckIntact(Click(g, i))
  {
    assert Click(g, i).cards == g.cards[i := g.cards[i].(flipped := true)];
    FacesUpdate(g.cards, i, g.cards[i].(flipped := true));
  }

  /** The card turned up joins the pending list, which it was not on
      because it was face down. */
  lemma ClickKeepsFaceUp(g: Game, i: nat)
    requires FaceUpTracked(g) && i < |g.cards| && !ClickIgnored(g, i)
    ensures FaceUpTracked(Click(g, i))
  {
    assert forall k :: 0 <= k < |g.pending| ==> g.pending[k] != i;
    assert Click(g, i).cards == g.cards[i := g.cards[i].(flipped := true)];
  }

  /** An unmatched card turned up leaves the matched count alone, and the
      click that completes a pair pays its move. */
  lemma ClickKeepsCounters(g: Game, i: nat)
    requires FaceUpTracked(g) && CountersAgree(g) && i < |g.cards| && !ClickIgnored(g, i)
    ensures CountersAgree(Click(g, i))
  {
    assert Click(g, i).cards == g.cards[i := g.cards[i].(flipped := true)];
    MatchedCountUpdate(g.cards, i, g.cards[i].(flipped := true));
  }

  /** Resolving a match keeps the invariant: two more matched cards, one
      more match, and the last pair completes the game. */
  lemma ResolveMatchPreservesValid(g: Game)
    requires Valid(g) && MatchDue(g)
    ensures Valid(ResolveMatch(g))
  {
    MatchKeepsDeck(g);
    MatchKeepsFaceUp(g);
    MatchKeepsCounters(g);
  }

  lemma MatchKeepsDeck(g: Game)
    requires DeckIntact(g) && MatchDue(g)
    ensures DeckIntact(ResolveMatch(g))
  {
    var first, second := g.pending[0], g.pending[1];
    var cards1 := g.cards[first := g.cards[first].(matched := true)];
    assert ResolveMatch(g).cards == cards1[second := cards1[second].(matched := true)];
    FacesUpdate(g.cards, first, g.cards[first].(matched := true));
    FacesUpdate(cards1, second, cards1[second].(matched := true));
  }

  lemma MatchKeepsFaceUp(g: Game)
    requires FaceUpTracked(g) && MatchDue(g)
    ensures FaceUpTracked(ResolveMatch(g))
  {
    ResolvedPairLeavesNothingPending(g, ResolveMatch(g).cards);
  }

  /** The two pending cards were unmatched, so the matched count grows by
      exactly two with the one new match; as it cannot exceed the sixteen
      cards, the game was not complete yet. */
  lemma MatchKeepsCounters(g: Game)
    requires MatchDue(g) && CountersAgree(g)
    requires |g.cards| == |Deck| && g.pending[0] != g.pending[1]
    requires !g.cards[g.pending[0]].matched && !g.cards[g.pending[1]].matched
    ensures CountersAgree(ResolveMatch(g))
  {
    var first, second := g.pending[0], g.pending[1];
    var cards2 := g.cards[first := g.cards[first].(matched := true)][second := g.cards[second].(matched := true)];
    assert ResolveMatch(g).cards == cards2;
    MatchedCountPairUpdate(g.cards, first, second, g.cards[first].(matched := true), g.cards[second].(matched := true));
    assert g.matches < PairCount by {
      assert MatchedCount(cards2) <= |cards2|;
    }
  }

  /** Replacing two distinct cards changes the matched count only by their
      own contributions. */
  lemma MatchedCountPairUpdate(cards: seq<Card>, a: nat, b: nat, c: Card, d: Card)
    requires a < |cards| && b < |cards| && a != b
    ensures MatchedCount(cards[a := c][b := d])
         == MatchedCount(cards)
            - (if cards[a].matched then 1 else 0) - (if cards[b].matched then 1 else 0)
            + (if c.matched then 1 else 0) + (if d.matched then 1 else 0)
  {
    MatchedCountUpdate(cards, a, c);
    MatchedCountUpdate(cards[a := c], b, d);
  }

  /** Resolving a mismatch keeps the invariant: the two cards go back face
      down and nothing is left face up unmatched. */
  lemma ResolveMismatchPreservesValid(g: Game)
    requires Valid(g) && MismatchDue(g)
    ensures Valid(ResolveMismatch(g))
  {
    MismatchKeepsDeck(g);
    MismatchKeepsFaceUp(g);
    MismatchKeepsCounters(g);
  }

  lemma MismatchKeepsDeck(g: Game)
    requires DeckIntact(g) && MismatchDue(g)
    ensures DeckIntact(ResolveMismatch(g))
  {
    var first, second := g.pending[0], g.pending[1];
    var cards1 := g.cards[first := g.cards[first].(flipped := false)];
    assert ResolveMismatch(g).cards == cards1[second := cards1[second].(flipped := false)];
    FacesUpdate(g.cards, first, g.cards[first].(flipped := false));
    FacesUpdate(cards1, second, cards1[second].(flipped := false));
  }

  lemma MismatchKeepsFaceUp(g: Game)
    requires FaceUpTracked(g) && MismatchDue(g)
    ensures FaceUpTracked(ResolveMismatch(g))
  {
    ResolvedPairLeavesNothingPending(g, ResolveMismatch(g).cards);
  }

  /** Turning cards face down leaves the matched count alone. */
  lemma MismatchKeepsCounters(g: Game)
    requires MismatchDue(g) && CountersAgree(g) && g.pending[0] != g.pending[1]
    ensures CountersAgree(ResolveMismatch(g))
  {
    var first, second := g.pending[0], g.pending[1];
    var cards2 := g.cards[first := g.cards[first].(flipped := false)][second := g.cards[second].(flipped := false)];
    assert ResolveMismatch(g).cards == cards2;
    MatchedCountPairUpdate(g.cards, first, second, g.cards[first].(flipped := false), g.cards[second].(flipped := false));
  }

  /** When both pending cards are settled (matched, or face down) and every
      other card is kept, no card is face up and unmatched any more. */
  lemma ResolvedPairLeavesNothingPending(g: Game, cards: seq<Card>)
    requires FaceUpTracked(g) && |g.pending| == 2 && |cards| == |g.cards|
    requires forall j :: 0 <= j < |cards| && j != g.pending[0] && j != g.pending[1] ==> cards[j] == g.cards[j]
    requires !cards[g.pending[0]].flipped || cards[g.pending[0]].matched
    requires !cards[g.pending[1]].flipped || cards[g.pending[1]].matched
    requires forall j :: 0 <= j < |cards| && cards[j].matched ==> cards[j].flipped
    ensures forall j :: 0 <= j < |cards| ==> !cards[j].flipped || cards[j].matched
  {
  }

  lemma StepPreservesValid(g: Game, e: Event)
    requires Valid(g)
    ensures Valid(Step(g, e))
  {
    if Enabled(g, e) {
      match e
      case ClickCard(i) => ClickPreservesValid(g, i);
      case MatchTimer => ResolveMatchPreservesValid(g);
      case MismatchTimer => ResolveMismatchPreservesValid(g);
    }
  }

  /** Every state reachable from a fresh deal satisfies the invariant; in
      particular matched cards always number twice the match counter, which
      never exceeds eight. */
  lemma {:induction false} RunPreservesValid(g: Game, events: seq<Event>)
    requires Valid(g)
    ensures Valid(Run(g, events))
    ensures Run(g, events).matches <= PairCount
    decreases |events|
  {
    if events == [] {
      MatchesBounded(g);
    } else {
      StepPreservesValid(g, events[0]);
      RunPreservesValid(Step(g, events[0]), events[1..]);
    }
  }

  /** Any play from a fresh deal keeps the invariant: the pending cards are
      distinct, matched cards are twice the matches, and completion is
      reached exactly with the eighth match. */
  lemma PlayFromDealIsValid(order: seq<Emoji>, events: seq<Event>)
    requires IsShuffle(order)
    ensures Valid(Run(Deal(order), events))
    ensures var g := Run(Deal(order), events);
      g.complete <==> g.matches == PairCount
  {
    RunPreservesValid(Deal(order), events);
  }

  /** The match counter never exceeds the number of pairs. */
  lemma MatchesBounded(g: Game)
    requires Valid(g)
    ensures g.matches <= PairCount
    ensures 2 * g.matches <= |g.cards|
  {
  }

  /** Once two cards are pending, exactly one of the two timers is due. */
  lemma PairIsResolvedOneWay(g: Game)
    requires Valid(g) && |g.pending| == 2
    ensures MatchDue(g) != MismatchDue(g)
  {
  }

  /** The game is complete exactly when every card has been matched. */
  lemma CompleteIffAllMatched(g: Game)
    requires Valid(g)
    ensures g.complete <==> forall i :: 0 <= i < |g.cards| ==> g.cards[i].matched
  {
  }

  /** After completion every card is face up, so every further click is
      ignored and no timer can ever be due again. */
  lemma CompleteGameIsFrozen(g: Game, i: nat)
    requires Valid(g) && g.complete && i < |g.cards|
    ensures Click(g, i) == g.(started := true)
    ensures !MatchDue(g) && !MismatchDue(g)
  {
  }

  /** Moves count pair comparisons: a click changes the move counter only
      when it completes a pair, and then by exactly one. */
  lemma MovesCountComparisons(g: Game, i: nat)
    requires Valid(g) && i < |g.cards|
    ensures Click(g, i).moves == g.moves + 1 <==> !ClickIgnored(g, i) && |g.pending| == 1
    ensures Click(g, i).moves == g.moves || Click(g, i).moves == g.moves + 1
  {
  }
}

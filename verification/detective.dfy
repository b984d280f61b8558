/**
  The clue-reveal minigame: five hidden clue cards at fixed positions.
  Clicking a card reveals it and bumps a counter; when the counter reaches
  five, an effect marks the game complete and schedules one navigation to
  the letter.

  The counter counts clicks, not distinct clues: clicking a clue that is
  already revealed leaves the clues as they are but still increments it.
 */
module Detective {

  import opened Optional
  import Navigation

  /** A screen position, in percent of the play area. */
  datatype Position = Position(x: int, y: int)

  datatype Clue = Clue(id: int, text: string, revealed: bool, position: Position)

  /** The page state: the clues, the click counter, the completion flag and
      the number of navigations the completion effect has scheduled. */
  datatype Board = Board(clues: seq<Clue>, revealedCount: nat, complete: bool, navigations: nat)

  /** The counter value at which the game is complete. */
  const ClueTotal: nat := 5

  /** The clues the mount effect installs, all hidden. */
  const InitialClues: seq<Clue> := [
    Clue(1, "You are amazing!", false, Position(10, 20)),
    Clue(2, "Your smile lights up the room", false, Position(70, 30)),
    Clue(3, "You inspire everyone around you", false, Position(20, 70)),
    Clue(4, "Your kindness knows no bounds", false, Position(75, 75)),
    Clue(5, "You deserve all the happiness", false, Position(50, 50))
  ]

  /** The board once the mount effect has run. */
  function NewBoard(): (b: Board)
    ensures |b.clues| == ClueTotal
    ensures forall k :: 0 <= k < |b.clues| ==> b.clues[k].id == k + 1 && !b.clues[k].revealed
    ensures b.revealedCount == 0 && !b.complete && b.navigations == 0
  {
    Board(InitialClues, 0, false, 0)
  }

  /** The number of revealed clues. */
  function RevealedNumber(clues: seq<Clue>): nat {
    if clues == [] then 0
    else (if clues[0].revealed then 1 else 0) + RevealedNumber(clues[1..])
  }

  /** Marks the clues carrying `id` as revealed. */
  function RevealIn(clues: seq<Clue>, id: int): (r: seq<Clue>)
    ensures |r| == |clues|
    ensures forall k :: 0 <= k < |clues| ==>
      && r[k].revealed == (clues[k].revealed || clues[k].id == id)
      && r[k].(revealed := false) == clues[k].(revealed := false)
  {
    seq(|clues|, k requires 0 <= k < |clues| =>
      if clues[k].id == id then clues[k].(revealed := true) else clues[k])
  }

  /**
    A click on clue `id`: that clue becomes revealed, its text, position
    and all other clues are kept, and the counter goes up by one whether
    or not the clue was already revealed.
   */
  function Reveal(b: Board, id: int): (b': Board)
    ensures |b'.clues| == |b.clues|
    ensures forall k :: 0 <= k < |b.clues| ==>
      && b'.clues[k].revealed == (b.clues[k].revealed || b.clues[k].id == id)
      && b'.clues[k].(revealed := false) == b.clues[k].(revealed := false)
    ensures b'.revealedCount == b.revealedCount + 1
    ensures b'.complete == b.complete && b'.navigations == b.navigations
  {
    b.(clues := RevealIn(b.clues, id), revealedCount := b.revealedCount + 1)
  }

  /**
    The completion effect, run after every render that changed the counter
    or the flag: exactly when the counter is five and the game is not yet
    complete, it marks it complete and schedules one navigation.
   */
  function CheckCompletion(b: Board): (b': Board)
    ensures b'.clues == b.clues && b'.revealedCount == b.revealedCount
    ensures b'.complete == (b.complete || b.revealedCount == ClueTotal)
    ensures b'.navigations == b.navigations + (if !b.complete && b.revealedCount == ClueTotal then 1 else 0)
  {
    if b.revealedCount == ClueTotal && !b.complete then
      b.(complete := true, navigations := b.navigations + 1)
    else b
  }

  /** A click followed by the effect it triggers. */
  function Click(b: Board, id: int): Board {
    CheckCompletion(Reveal(b, id))
  }

  /** Clicks on the given clues, in order. */
  function RunClicks(b: Board, ids: seq<int>): Board
    decreases |ids|
  {
    if ids == [] then b else RunClicks(Click(b, ids[0]), ids[1..])
  }

  /** Once the game is complete, the scheduled navigation leads to the
      letter; before that there is none. */
  function Destination(b: Board): (target: Option<Navigation.Route>)
    ensures target.Some? <==> b.navigations > 0
    ensures target.Some? ==> target == Navigation.Next(Navigation.Detective)
    ensures target.Some? ==> target == Navigation.RouteOf("/letter")
  {
    if b.navigations > 0 then Some(Navigation.Letter) else None
  }

  // ---------------------------------------------------------------------
  // Properties
  // ---------------------------------------------------------------------

  /**
    What holds of every board reachable from a new one: the clues are the
    initial ones up to their revealed flags; the counter is at least the
    number of revealed clues; the game is complete exactly when the counter
    has reached five; and exactly one navigation was scheduled then.
   */
  ghost predicate Valid(b: Board) {
    && |b.clues| == |InitialClues|
    && (forall k :: 0 <= k < |b.clues| ==> b.clues[k].(revealed := false) == InitialClues[k])
    && RevealedNumber(b.clues) <= b.revealedCount
    && (b.complete <==> b.revealedCount >= ClueTotal)
    && b.navigations == (if b.complete then 1 else 0)
  }

  /** Revealing a clue in a list with distinct ids reveals at most one more
      clue. */
  lemma {:induction false} RevealAddsAtMostOne(clues: seq<Clue>, id: int)
    requires forall j, k :: 0 <= j < k < |clues| ==> clues[j].id != clues[k].id
    ensures RevealedNumber(RevealIn(clues, id)) <= RevealedNumber(clues) + 1
    ensures (forall k :: 0 <= k < |clues| ==> clues[k].id != id) ==> RevealIn(clues, id) == clues
  {
    if clues != [] {
      var r := RevealIn(clues, id);
      assert r[1..] == RevealIn(clues[1..], id);
      RevealAddsAtMostOne(clues[1..], id);
      if clues[0].id == id {
        assert forall k :: 0 <= k < |clues[1..]| ==> clues[1..][k].id != id;
      }
    }
  }

  /** A click keeps the invariant: the counter outruns the revealed clues
      by at least as much as before, and completion happens exactly once. */
  lemma ClickPreservesValid(b: Board, id: int)
    requires Valid(b)
    ensures Valid(Click(b, id))
  {
    assert forall j, k :: 0 <= j < k < |b.clues| ==> b.clues[j].id != b.clues[k].id by {
      forall j, k | 0 <= j < k < |b.clues| ensures b.clues[j].id != b.clues[k].id {
        assert b.clues[j].id == InitialClues[j].id;
        assert b.clues[k].id == InitialClues[k].id;
      }
    }
    RevealAddsAtMostOne(b.clues, id);
  }

  /** The board a fresh page shows satisfies the invariant. */
  lemma NewBoardValid()
    ensures Valid(NewBoard())
  {
  }

  /**
    Over any sequence of clicks the counter grows by exactly the number of
    clicks, the invariant holds, and a board that was already complete
    never schedules another navigation.
   */
  lemma {:induction false} RunClicksPreservesValid(b: Board, ids: seq<int>)
    requires Valid(b)
    ensures Valid(RunClicks(b, ids))
    ensures RunClicks(b, ids).revealedCount == b.revealedCount + |ids|
    ensures b.complete ==> RunClicks(b, ids).navigations == b.navigations
    decreases |ids|
  {
    if ids != [] {
      ClickPreservesValid(b, ids[0]);
      RunClicksPreservesValid(Click(b, ids[0]), ids[1..]);
    }
  }

  /**
    From a fresh board, the game completes exactly when five clicks have
    been made (on any clues, repeats included), and at most one navigation
    is ever scheduled.
   */
  lemma CompletionAfterFiveClicks(ids: seq<int>)
    ensures RunClicks(NewBoard(), ids).complete <==> |ids| >= ClueTotal
    ensures RunClicks(NewBoard(), ids).navigations == (if |ids| >= ClueTotal then 1 else 0)
  {
    NewBoardValid();
    RunClicksPreservesValid(NewBoard(), ids);
  }

  /** Clicking a clue that is already revealed leaves the clues unchanged
      but still counts. */
  lemma RepeatRevealOnlyCounts(b: Board, id: int)
    requires forall k :: 0 <= k < |b.clues| && b.clues[k].id == id ==> b.clues[k].revealed
    ensures Reveal(b, id).clues == b.clues
    ensures Reveal(b, id).revealedCount == b.revealedCount + 1
  {
  }

  /** Five clicks on the first clue complete the game while four clues are
      still hidden. */
  lemma FiveClicksOnOneClue()
    ensures RunClicks(NewBoard(), [1, 1, 1, 1, 1]).complete
    ensures RevealedNumber(RunClicks(NewBoard(), [1, 1, 1, 1, 1]).clues) == 1
  {
    var ids := [1, 1, 1, 1, 1];
    CompletionAfterFiveClicks(ids);
    var b1 := Click(NewBoard(), 1);
    var first := InitialClues[0].(revealed := true);
    assert b1.clues == [first] + InitialClues[1..];
    assert RunClicks(NewBoard(), ids) == RunClicks(b1, ids[1..]);
    RepeatClicksKeepClues(b1, ids[1..], 1);
    NoneRevealed(InitialClues[1..]);
  }

  /** A list of hidden clues has no revealed clue. */
  lemma {:induction false} NoneRevealed(clues: seq<Clue>)
    requires forall k :: 0 <= k < |clues| ==> !clues[k].revealed
    ensures RevealedNumber(clues) == 0
  {
    if clues != [] {
      NoneRevealed(clues[1..]);
    }
  }

  /** Repeated clicks on an already revealed clue never change the clues. */
  lemma {:induction false} RepeatClicksKeepClues(b: Board, ids: seq<int>, id: int)
    requires forall k :: 0 <= k < |b.clues| && b.clues[k].id == id ==> b.clues[k].revealed
    requires forall j :: 0 <= j < |ids| ==> ids[j] == id
    ensures RunClicks(b, ids).clues == b.clues
    decreases |ids|
  {
    if ids != [] {
      RepeatRevealOnlyCounts(b, id);
      RepeatClicksKeepClues(Click(b, id), ids[1..], id);
    }
  }
}

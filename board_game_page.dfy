/**
 * The board game page's state machine: one game state (the spaces, the
 * players, whose turn it is and whether the game has started) replaced step
 * by step by the page's handlers for adding and removing players, starting,
 * rolling the dice and resetting.
 */
module BoardGamePage {
  import opened JsCore
  import opened QuizUtils
  import opened BoardGameUtils

  // ---------------------------------------------------------------------------
  // The pure pieces of the handlers
  // ---------------------------------------------------------------------------

  /** The players left after dropping every player whose id is `id`. */
  function RemoveById(players: seq<Player>, id: string): (r: seq<Player>)
    ensures |r| <= |players|
    ensures forall p :: p in r <==> p in players && p.id != id
  {
    if |players| == 0 then []
    else if players[|players| - 1].id == id then RemoveById(players[..|players| - 1], id)
    else RemoveById(players[..|players| - 1], id) + [players[|players| - 1]]
  }

  /** Removing distributes over concatenation, so the players kept stay in their order. */
  lemma {:induction false} RemoveByIdAppend(a: seq<Player>, b: seq<Player>, id: string)
    ensures RemoveById(a + b, id) == RemoveById(a, id) + RemoveById(b, id)
    decreases |b|
  {
    if |b| == 0 {
      assert a + b == a;
    } else {
      var b' := b[..|b| - 1];
      assert (a + b)[..|a + b| - 1] == a + b';
      RemoveByIdAppend(a, b', id);
    }
  }

  /** With no player carrying the id, removal changes nothing. */
  lemma {:induction false} RemoveAbsent(players: seq<Player>, id: string)
    requires forall k :: 0 <= k < |players| ==> players[k].id != id
    ensures RemoveById(players, id) == players
    decreases |players|
  {
    if |players| > 0 {
      RemoveAbsent(players[..|players| - 1], id);
    }
  }

  /** Every player keeps a distinct id. */
  predicate DistinctIds(players: seq<Player>)
  {
    forall i, j :: 0 <= i < j < |players| ==> players[i].id != players[j].id
  }

  /**
   * The players after the one whose id is `id` is replaced by `moved`: with
   * distinct ids that is an update of the one slot holding the id, and with
   * an absent id nothing changes.
   */
  function ReplaceById(players: seq<Player>, id: string, moved: Player): (r: seq<Player>)
    ensures |r| == |players|
    ensures forall k :: 0 <= k < |r| ==> r[k] == (if players[k].id == id then moved else players[k])
    ensures DistinctIds(players) ==>
              forall i :: 0 <= i < |players| && players[i].id == id ==> r == players[i := moved]
    ensures (forall k :: 0 <= k < |players| ==> players[k].id != id) ==> r == players
  {
    seq(|players|, k requires 0 <= k < |players| => if players[k].id == id then moved else players[k])
  }

  /** With distinct ids, replacing player i's entry by id touches slot i and no other. */
  lemma ReplaceOnlyCurrent(players: seq<Player>, i: nat, moved: Player)
    requires DistinctIds(players) && i < |players|
    ensures var r := ReplaceById(players, players[i].id, moved);
            r[i] == moved && forall k :: 0 <= k < |r| && k != i ==> r[k] == players[k]
  {
    var r := ReplaceById(players, players[i].id, moved);
    forall k | 0 <= k < |r| && k != i
      ensures r[k] == players[k]
    {
      if k < i {
        assert players[k].id != players[i].id;
      } else {
        assert players[i].id != players[k].id;
      }
    }
  }

  /** The action message shown for the space a player lands on. */
  function SpaceMessage(space: GameSpace): string
  {
    match space.spaceType
    case Trivia => "Answer the trivia question!"
    case Chance => "Chance: " + (if space.chanceOutcome.Some? then space.chanceOutcome.value else "undefined")
    case MusicBingo => "Music Bingo space!"
    case InstantPrize => "You won an instant prize!"
    case RandomWheel => "Spin a random wheel!"
    case Cheers => "Cheers! Everyone drinks!"
    case DrinkSips => "Drink " + SipsText(space) + " sips!"
    case GiveSips => "Give " + SipsText(space) + " sips to another player!"
    case Start => "Start/Finish space!"
    case Finish => "Start/Finish space!"
  }

  /** The sip count as a template literal prints it. */
  function SipsText(space: GameSpace): string
  {
    if space.sipsCount.Some? then NumberToString(space.sipsCount.value, 10) else "undefined"
  }

  /** The message for landing at `position`: empty when no space is there. */
  function LandingMessage(spaces: seq<GameSpace>, position: int): (m: string)
    ensures !(0 <= position < |spaces|) ==> m == ""
    ensures 0 <= position < |spaces| ==> m == SpaceMessage(spaces[position])
  {
    if 0 <= position < |spaces| then SpaceMessage(spaces[position]) else ""
  }

  /** Start and finish share one message, which no other type shows. */
  lemma StartFinishMessage(space: GameSpace)
    ensures SpaceMessage(space) == "Start/Finish space!" <==> space.spaceType == Start || space.spaceType == Finish
  {
    var m := SpaceMessage(space);
    match space.spaceType
    case Chance => assert m[0] == 'C';
    case DrinkSips => assert m[0] == 'D';
    case GiveSips => assert m[0] == 'G';
    case _ =>
  }

  /** Apart from chance and sips spaces, the message depends on the type alone. */
  lemma MessageByType(a: GameSpace, b: GameSpace)
    requires a.spaceType == b.spaceType
    requires a.spaceType !in {Chance, DrinkSips, GiveSips}
    ensures SpaceMessage(a) == SpaceMessage(b)
  {
  }

  /** A chance space with an outcome from the list names it; a sips space with a count of 1 to 3 shows one digit. */
  lemma MessageOfExtras(s: GameSpace)
    requires s.spaceType == Chance ==> s.chanceOutcome.Some? && s.chanceOutcome.value in ChanceOutcomes
    requires s.spaceType in {DrinkSips, GiveSips} ==> s.sipsCount.Some? && 1 <= s.sipsCount.value <= 3
    ensures s.spaceType == Chance ==>
              exists k :: 0 <= k < |ChanceOutcomes| && SpaceMessage(s) == "Chance: " + ChanceOutcomes[k]
    ensures s.spaceType in {DrinkSips, GiveSips} ==> SipsText(s) in {"1", "2", "3"}
  {
    if s.spaceType == Chance {
      var o := s.chanceOutcome.value;
      var k :| 0 <= k < |ChanceOutcomes| && ChanceOutcomes[k] == o;
      assert SpaceMessage(s) == "Chance: " + ChanceOutcomes[k];
    } else if s.spaceType == DrinkSips || s.spaceType == GiveSips {
      SipsTextSmall(s);
    }
  }

  /** A sip count of 1 to 3 prints as one digit. */
  lemma SipsTextSmall(s: GameSpace)
    requires s.sipsCount.Some? && 1 <= s.sipsCount.value <= 3
    ensures SipsText(s) in {"1", "2", "3"}
  {
    var n := s.sipsCount.value;
    SmallNumberText(n);
    var t := SipsText(s);
    assert t == [('0' as int + n) as char];
    if n == 1 {
      assert t == "1";
    } else if n == 2 {
      assert t == "2";
    } else {
      assert t == "3";
    }
  }

  /** On a generated board no message shows "undefined": chance spaces name a listed outcome and sips spaces a count of 1 to 3. */
  lemma GeneratedMessage(quizzes: seq<QuizConfig>, i: nat, d: SpaceDraw)
    requires Drawable(quizzes) && DrawFits(d)
    ensures var s := SpaceAt(quizzes, i, d);
            s.spaceType == Chance ==>
              exists k :: 0 <= k < |ChanceOutcomes| && SpaceMessage(s) == "Chance: " + ChanceOutcomes[k]
    ensures var s := SpaceAt(quizzes, i, d);
            s.spaceType in {DrinkSips, GiveSips} ==> SipsText(s) in {"1", "2", "3"}
  {
    SpaceExtras(quizzes, i, d);
    MessageOfExtras(SpaceAt(quizzes, i, d));
  }

  /** The decimal text of 1, 2 and 3. */
  lemma SmallNumberText(n: int)
    requires 1 <= n <= 3
    ensures NumberToString(n, 10) == [('0' as int + n) as char]
  {
  }

  // ---------------------------------------------------------------------------
  // The game state
  // ---------------------------------------------------------------------------

  class BoardGame {
    /** The quizzes trivia spaces draw from (the shipped catalogue, which ShippedQuizzesDrawable admits). */
    const quizzes: seq<QuizConfig>
    var spaces: seq<GameSpace>
    var players: seq<Player>
    var currentPlayerIndex: int
    var gameStarted: bool

    /** The board keeps its sixteen spaces and the turn index never goes negative. */
    predicate Valid()
      reads this
    {
      |spaces| == BoardSize && currentPlayerIndex >= 0 && Drawable(quizzes)
    }

    /** Every player stands on a space of the board. */
    predicate OnBoard()
      reads this
    {
      forall k :: 0 <= k < |players| ==> 0 <= players[k].position < |spaces|
    }

    /** initializeGameState: freshly generated spaces, no players, first turn, not started. */
    constructor (quizzes: seq<QuizConfig>, draws: seq<SpaceDraw>)
      requires Drawable(quizzes)
      requires |draws| == BoardSize && forall i :: 0 <= i < |draws| ==> DrawFits(draws[i])
      ensures Valid() && OnBoard()
      ensures this.quizzes == quizzes && FreshSpaces(quizzes, spaces, draws)
      ensures players == [] && currentPlayerIndex == 0 && !gameStarted
    {
      var state := InitializeGameState(quizzes, draws);
      this.quizzes := quizzes;
      spaces := state.spaces;
      players := state.players;
      currentPlayerIndex := state.currentPlayerIndex;
      gameStarted := state.gameStarted;
    }

    /** handleAddPlayer: appends the player, unless the game has started. */
    method AddPlayer(player: Player)
      requires Valid()
      modifies this
      ensures Valid()
      ensures old(gameStarted) ==> players == old(players)
      ensures !old(gameStarted) ==> players == old(players) + [player]
      ensures spaces == old(spaces) && currentPlayerIndex == old(currentPlayerIndex)
      ensures gameStarted == old(gameStarted)
      ensures old(OnBoard()) && 0 <= player.position < |spaces| ==> OnBoard()
      ensures (old(DistinctIds(players)) && forall k :: 0 <= k < |old(players)| ==> old(players)[k].id != player.id) ==>
                DistinctIds(players)
    {
      if gameStarted {
        return;
      }
      players := players + [player];
    }

    /** handleRemovePlayer: drops every player with the id, unless the game has started. */
    method RemovePlayer(playerId: string)
      requires Valid()
      modifies this
      ensures Valid()
      ensures old(gameStarted) ==> players == old(players)
      ensures !old(gameStarted) ==> players == RemoveById(old(players), playerId)
      ensures spaces == old(spaces) && currentPlayerIndex == old(currentPlayerIndex)
      ensures gameStarted == old(gameStarted)
      ensures old(OnBoard()) ==> OnBoard()
    {
      if gameStarted {
        return;
      }
      players := RemoveById(players, playerId);
    }

    /** handleStartGame: starts the game once there are at least two players. */
    method StartGame()
      requires Valid()
      modifies this
      ensures Valid()
      ensures gameStarted == (old(gameStarted) || |players| >= 2)
      ensures spaces == old(spaces) && players == old(players)
      ensures currentPlayerIndex == old(currentPlayerIndex)
    {
      if |players| < 2 {
        return;
      }
      gameStarted := true;
    }

    /**
     * handleRollDice, with the delayed commit taken as part of the same step:
     * the current player moves `steps` spaces round the board, the landing
     * message is produced and the turn passes on. With no current player
     * nothing happens and no message is set (None).
     */
    method RollDice(steps: int) returns (message: Option<string>)
      requires Valid()
      modifies this
      ensures Valid()
      ensures spaces == old(spaces) && gameStarted == old(gameStarted)
      ensures |players| == |old(players)|
      ensures !(old(currentPlayerIndex) < |old(players)|) ==>
                message.None? && players == old(players) && currentPlayerIndex == old(currentPlayerIndex)
      ensures old(currentPlayerIndex) < |old(players)| ==>
                var current := old(players)[old(currentPlayerIndex)];
                var moved := MovePlayer(current, steps, |spaces|);
                players == ReplaceById(old(players), current.id, moved) &&
                currentPlayerIndex == NextPlayerIndex(old(currentPlayerIndex), |players|) &&
                message == Some(LandingMessage(spaces, moved.position))
      ensures old(currentPlayerIndex) < |old(players)| ==> currentPlayerIndex < |players|
      ensures old(OnBoard()) && steps >= 0 ==> OnBoard()
    {
      if currentPlayerIndex >= |players| {
        return None;
      }
      var current := players[currentPlayerIndex];
      var moved := MovePlayer(current, steps, |spaces|);
      var updated := ReplaceById(players, current.id, moved);
      var text := LandingMessage(spaces, moved.position);
      message := Some(text);
      currentPlayerIndex := NextPlayerIndex(currentPlayerIndex, |players|);
      players := updated;
    }

    /** handleResetGame: after confirmation, a fresh game replaces the current one. */
    method ResetGame(confirmed: bool, draws: seq<SpaceDraw>)
      requires Valid()
      requires confirmed ==> |draws| == BoardSize && forall i :: 0 <= i < |draws| ==> DrawFits(draws[i])
      modifies this
      ensures Valid()
      ensures !confirmed ==>
                spaces == old(spaces) && players == old(players) &&
                currentPlayerIndex == old(currentPlayerIndex) && gameStarted == old(gameStarted)
      ensures confirmed ==>
                FreshSpaces(quizzes, spaces, draws) && players == [] && currentPlayerIndex == 0 && !gameStarted
    {
      if !confirmed {
        return;
      }
      var state := InitializeGameState(quizzes, draws);
      spaces := state.spaces;
      players := state.players;
      currentPlayerIndex := state.currentPlayerIndex;
      gameStarted := state.gameStarted;
    }
  }

  /** A roll keeps player ids distinct, and with distinct ids it moves the current player and nobody else. */
  lemma RollMovesOnlyCurrent(players: seq<Player>, i: nat, steps: int, n: int)
    requires DistinctIds(players) && i < |players| && n != 0
    ensures var r := ReplaceById(players, players[i].id, MovePlayer(players[i], steps, n));
            DistinctIds(r) &&
            r[i].position == JsRem(players[i].position + steps, n) &&
            forall k :: 0 <= k < |r| && k != i ==> r[k] == players[k]
  {
    var moved := MovePlayer(players[i], steps, n);
    ReplaceOnlyCurrent(players, i, moved);
  }

  /** Before the game starts, adding a player with a fresh id and then removing that id restores the players. */
  lemma AddThenRemove(players: seq<Player>, p: Player)
    requires forall k :: 0 <= k < |players| ==> players[k].id != p.id
    ensures RemoveById(players + [p], p.id) == players
  {
    RemoveByIdAppend(players, [p], p.id);
    RemoveAbsent(players, p.id);
    assert RemoveById([p], p.id) == RemoveById([], p.id);
  }
}

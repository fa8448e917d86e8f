/**
 * The party board game's engine: space types and their icons and labels,
 * the board layout, the generation of the sixteen spaces with their
 * per-type extras, players and their movement, turn order, and the lookup
 * of a trivia question by id.
 */
module BoardGameUtils {
  import opened JsCore
  import opened QuizUtils

  datatype SpaceType =
    | Start | Finish | Trivia | Chance | MusicBingo
    | InstantPrize | RandomWheel | Cheers | DrinkSips | GiveSips

  datatype Position = Position(x: int, y: int)

  datatype Reward = Prize | Punishment | NoReward

  datatype TriviaRef = TriviaRef(questionId: string, reward: Reward)

  datatype GameSpace = GameSpace(
    id: string,
    spaceType: SpaceType,
    color: string,
    position: Position,
    triviaQuestion: Option<TriviaRef>,
    chanceOutcome: Option<string>,
    sipsCount: Option<int>,
    icon: string,
    labelText: string)

  datatype Player = Player(id: string, name: string, position: int, color: string)

  const BoardSize: nat := 16

  const PlayerColors: seq<string> :=
    ["#FF5252", "#4CAF50", "#2196F3", "#FFC107", "#9C27B0", "#FF9800", "#795548", "#607D8B"]

  /** The type of space i is SpaceTypes[i % 16]. */
  const SpaceTypes: seq<SpaceType> := [
    Start,
    Trivia, Trivia, Trivia,
    Chance, Chance,
    MusicBingo, MusicBingo,
    InstantPrize,
    RandomWheel,
    Cheers, Cheers,
    DrinkSips, DrinkSips,
    GiveSips, GiveSips
  ]

  /** Red, white and blue. */
  const SpaceColors: seq<string> := ["#BA0C2F", "#FFFFFF", "#00205B"]

  const Checkered: string := "checkered"

  const ChanceOutcomes: seq<string> := [
    "Go to Price Wheel",
    "Go to Punishment Wheel",
    "Go to Rules Wheel",
    "Take a shot",
    "Give a shot",
    "Pick a prize",
    "Bingo free spot"
  ]

  const Rewards: seq<Reward> := [Prize, Punishment, NoReward]

  // ---------------------------------------------------------------------------
  // Icons and labels
  // ---------------------------------------------------------------------------

  function IconForType(t: SpaceType): string
  {
    match t
    case Start => "\U{1F3C1}"
    case Finish => "\U{1F3C1}"
    case Trivia => "\U{2753}"
    case Chance => "\U{1F3B2}"
    case MusicBingo => "\U{1F3B5}"
    case InstantPrize => "\U{1F381}"
    case RandomWheel => "\U{1F3A1}"
    case Cheers => "\U{1F942}"
    case DrinkSips => "\U{1F964}"
    case GiveSips => "\U{1F449}"
  }

  function LabelForType(t: SpaceType): string
  {
    match t
    case Start => "Start"
    case Finish => "Finish"
    case Trivia => "Trivia"
    case Chance => "Chance"
    case MusicBingo => "Music Bingo"
    case InstantPrize => "Instant Prize!"
    case RandomWheel => "Spin a Wheel!"
    case Cheers => "Cheers!"
    case DrinkSips => "Drink Sips"
    case GiveSips => "Give Sips"
  }

  /** Different types have different labels, so a label names its type. */
  lemma LabelsDistinct(a: SpaceType, b: SpaceType)
    ensures LabelForType(a) == LabelForType(b) <==> a == b
  {
    if a != b {
      assert LabelForType(a)[..2] != LabelForType(b)[..2] || |LabelForType(a)| != |LabelForType(b)| ||
             LabelForType(a)[|LabelForType(a)| - 1] != LabelForType(b)[|LabelForType(b)| - 1];
    }
  }

  /** Icons tell types apart, except that start and finish share the flag. */
  lemma IconsDistinct(a: SpaceType, b: SpaceType)
    ensures IconForType(a) == IconForType(b) <==> a == b || (a.Start? && b.Finish?) || (a.Finish? && b.Start?)
  {
    if IconForType(a) == IconForType(b) {
      assert IconForType(a)[0] == IconForType(b)[0];
    }
  }

  // ---------------------------------------------------------------------------
  // Layout
  // ---------------------------------------------------------------------------

  /** Math.ceil(n / 4). */
  function CeilQuarter(n: int): (r: int)
    ensures 4 * r - 3 <= n <= 4 * r
  {
    -((-n) / 4)
  }

  /** calculatePosition: a rectangle four spaces wide, walked top, right, bottom, then left. */
  function CalculatePosition(index: int, totalSpaces: int): (p: Position)
    ensures 0 <= index < 4 ==> p == Position(index, 0)
    ensures index >= 0 ==> 0 <= p.x <= 3
  {
    var boardWidth := 4;
    var boardHeight := CeilQuarter(totalSpaces);
    if index < boardWidth then Position(index, 0)
    else if index < boardWidth + boardHeight - 1 then Position(boardWidth - 1, index - boardWidth + 1)
    else if index < 2 * boardWidth + boardHeight - 2 then Position(2 * boardWidth + boardHeight - 3 - index, boardHeight - 1)
    else Position(0, totalSpaces - index)
  }

  /**
   * On the sixteen-space board the layout is not one-to-one and leaves its
   * rectangle: spaces 9 and 13 share a cell, and space 10 is placed at row 6
   * of a board four rows high.
   */
  lemma LayoutOfSixteen()
    ensures CalculatePosition(9, 16) == CalculatePosition(13, 16) == Position(0, 3)
    ensures CalculatePosition(10, 16) == Position(0, 6) && CeilQuarter(16) == 4
    ensures forall i :: 0 <= i < 4 ==> CalculatePosition(i, 16) == Position(i, 0)
    ensures forall i :: 4 <= i < 7 ==> CalculatePosition(i, 16) == Position(3, i - 3)
  {
  }

  // ---------------------------------------------------------------------------
  // Random draws
  // ---------------------------------------------------------------------------

  /** Math.floor(r * n) for a draw r of Math.random. */
  function FloorIndex(r: real, n: nat): (k: nat)
    requires 0.0 <= r < 1.0 && n > 0
    ensures k < n
  {
    var x := r * n as real;
    assert 0.0 <= x < n as real;
    x.Floor
  }

  /** rollDice: Math.floor(r * 6) + 1. */
  function RollDice(r: real): (d: int)
    requires 0.0 <= r < 1.0
    ensures 1 <= d <= 6
  {
    FloorIndex(r, 6) + 1
  }

  /** The Math.random draws consumed while building one space (only those its type needs are read). */
  datatype SpaceDraw = SpaceDraw(quiz: real, question: real, reward: real, outcome: real, sips: real)

  predicate IsDraw(r: real)
  {
    0.0 <= r < 1.0
  }

  predicate DrawFits(d: SpaceDraw)
  {
    IsDraw(d.quiz) && IsDraw(d.question) && IsDraw(d.reward) && IsDraw(d.outcome) && IsDraw(d.sips)
  }

  /** Quizzes a trivia space can draw from: at least one, each with at least one question. */
  predicate Drawable(quizzes: seq<QuizConfig>)
  {
    |quizzes| > 0 && forall k :: 0 <= k < |quizzes| ==> |quizzes[k].questions| > 0
  }

  // ---------------------------------------------------------------------------
  // Spaces
  // ---------------------------------------------------------------------------

  function TypeAt(i: nat): SpaceType
  {
    SpaceTypes[i % |SpaceTypes|]
  }

  function ColorAt(i: nat): string
  {
    var t := TypeAt(i);
    if t == Start || t == Finish then Checkered else SpaceColors[i % |SpaceColors|]
  }

  /** The trivia extra: a question of a drawn quiz and a drawn reward. */
  function TriviaDraw(quizzes: seq<QuizConfig>, d: SpaceDraw): TriviaRef
    requires Drawable(quizzes) && DrawFits(d)
  {
    var quiz := quizzes[FloorIndex(d.quiz, |quizzes|)];
    var question := quiz.questions[FloorIndex(d.question, |quiz.questions|)];
    TriviaRef(question.id, Rewards[FloorIndex(d.reward, |Rewards|)])
  }

  /** The trivia extra of space i: only trivia spaces have one. */
  function TriviaExtra(quizzes: seq<QuizConfig>, i: nat, d: SpaceDraw): Option<TriviaRef>
    requires Drawable(quizzes) && DrawFits(d)
  {
    if TypeAt(i) == Trivia then Some(TriviaDraw(quizzes, d)) else None
  }

  function ChanceExtra(i: nat, d: SpaceDraw): Option<string>
    requires DrawFits(d)
  {
    if TypeAt(i) == Chance then Some(ChanceOutcomes[FloorIndex(d.outcome, |ChanceOutcomes|)]) else None
  }

  function SipsExtra(i: nat, d: SpaceDraw): Option<int>
    requires DrawFits(d)
  {
    if TypeAt(i) == DrinkSips || TypeAt(i) == GiveSips then Some(FloorIndex(d.sips, 3) + 1) else None
  }

  /** Space i as generateGameSpaces builds it from the draws it makes for that space. */
  function SpaceAt(quizzes: seq<QuizConfig>, i: nat, d: SpaceDraw): GameSpace
    requires Drawable(quizzes) && DrawFits(d)
  {
    GameSpace(
      NumberToString(i, 10),
      TypeAt(i),
      ColorAt(i),
      CalculatePosition(i, BoardSize),
      TriviaExtra(quizzes, i, d),
      ChanceExtra(i, d),
      SipsExtra(i, d),
      IconForType(TypeAt(i)),
      LabelForType(TypeAt(i)))
  }

  /** One pass of generateGameSpaces's loop: space i with its type, colour, place and extras. */
  method BuildSpace(quizzes: seq<QuizConfig>, i: nat, totalSpaces: nat, d: SpaceDraw) returns (space: GameSpace)
    requires Drawable(quizzes) && DrawFits(d) && totalSpaces == BoardSize
    ensures space == SpaceAt(quizzes, i, d)
  {
    var typeIndex := i % |SpaceTypes|;
    var t := SpaceTypes[typeIndex];
    var color;
    if t == Start || t == Finish {
      color := Checkered;
    } else {
      var colorIndex := i % |SpaceColors|;
      color := SpaceColors[colorIndex];
    }
    space := GameSpace(NumberToString(i, 10), t, color, CalculatePosition(i, totalSpaces),
                       None, None, None, IconForType(t), LabelForType(t));
    if t == Trivia {
      var quiz := quizzes[FloorIndex(d.quiz, |quizzes|)];
      var question := quiz.questions[FloorIndex(d.question, |quiz.questions|)];
      var reward := Rewards[FloorIndex(d.reward, |Rewards|)];
      space := space.(triviaQuestion := Some(TriviaRef(question.id, reward)));
    } else if t == Chance {
      space := space.(chanceOutcome := Some(ChanceOutcomes[FloorIndex(d.outcome, |ChanceOutcomes|)]));
    } else if t == DrinkSips || t == GiveSips {
      space := space.(sipsCount := Some(FloorIndex(d.sips, 3) + 1));
    }
  }

  /** generateGameSpaces: sixteen spaces, built and pushed one at a time. */
  method GenerateGameSpaces(quizzes: seq<QuizConfig>, draws: seq<SpaceDraw>) returns (spaces: seq<GameSpace>)
    requires Drawable(quizzes)
    requires |draws| == BoardSize && forall i :: 0 <= i < |draws| ==> DrawFits(draws[i])
    ensures |spaces| == BoardSize
    ensures forall i :: 0 <= i < |spaces| ==> spaces[i] == SpaceAt(quizzes, i, draws[i])
  {
    spaces := [];
    var totalSpaces := BoardSize;
    for i := 0 to totalSpaces
      invariant |spaces| == i
      invariant forall k :: 0 <= k < i ==> spaces[k] == SpaceAt(quizzes, k, draws[k])
    {
      var space := BuildSpace(quizzes, i, totalSpaces, draws[i]);
      spaces := spaces + [space];
    }
  }

  /** Only space 0 is a start and no space is a finish. */
  lemma StartOnlyAtZero(i: nat)
    requires i < BoardSize
    ensures TypeAt(i) == Start <==> i == 0
    ensures TypeAt(i) != Finish
  {
  }

  /** The colour is the checkered flag exactly on start and finish spaces; otherwise red, white and blue in turn. */
  lemma SpaceColor(quizzes: seq<QuizConfig>, i: nat, d: SpaceDraw)
    requires Drawable(quizzes) && DrawFits(d)
    ensures var s := SpaceAt(quizzes, i, d);
            (s.color == Checkered <==> s.spaceType == Start || s.spaceType == Finish) &&
            (s.color != Checkered ==> s.color == SpaceColors[i % 3])
  {
  }

  /** A space's id reads back as its index, and its icon and label are those of its type. */
  lemma SpaceIdentity(quizzes: seq<QuizConfig>, i: nat, d: SpaceDraw)
    requires Drawable(quizzes) && DrawFits(d)
    ensures var s := SpaceAt(quizzes, i, d);
            ParseNumber(s.id, 10) == Some(i) && s.spaceType == SpaceTypes[i % 16] &&
            s.icon == IconForType(s.spaceType) && s.labelText == LabelForType(s.spaceType)
  {
    NumberToStringRoundTrip(i, 10);
  }

  /** The per-type extras: each type gets its own extra and no other. */
  lemma SpaceExtras(quizzes: seq<QuizConfig>, i: nat, d: SpaceDraw)
    requires Drawable(quizzes) && DrawFits(d)
    ensures var s := SpaceAt(quizzes, i, d);
            (s.sipsCount.Some? <==> s.spaceType == DrinkSips || s.spaceType == GiveSips) &&
            (s.sipsCount.Some? ==> 1 <= s.sipsCount.value <= 3)
    ensures var s := SpaceAt(quizzes, i, d);
            (s.chanceOutcome.Some? <==> s.spaceType == Chance) &&
            (s.chanceOutcome.Some? ==> s.chanceOutcome.value in ChanceOutcomes)
    ensures var s := SpaceAt(quizzes, i, d);
            (s.triviaQuestion.Some? <==> s.spaceType == Trivia) &&
            (s.triviaQuestion.Some? ==> s.triviaQuestion.value.reward in Rewards)
    ensures var s := SpaceAt(quizzes, i, d);
            s.triviaQuestion.Some? ==>
              exists k, j :: 0 <= k < |quizzes| && 0 <= j < |quizzes[k].questions| &&
                             quizzes[k].questions[j].id == s.triviaQuestion.value.questionId
  {
    var s := SpaceAt(quizzes, i, d);
    if s.spaceType == Trivia {
      var k := FloorIndex(d.quiz, |quizzes|);
      var j := FloorIndex(d.question, |quizzes[k].questions|);
      assert quizzes[k].questions[j].id == s.triviaQuestion.value.questionId;
    }
  }

  // ---------------------------------------------------------------------------
  // Players
  // ---------------------------------------------------------------------------

  function UsedColors(players: seq<Player>): (used: seq<string>)
    ensures |used| == |players|
  {
    seq(|players|, i requires 0 <= i < |players| => players[i].color)
  }

  /** The palette colours not in `used`, in palette order. */
  function AvailableColors(palette: seq<string>, used: seq<string>): (r: seq<string>)
    ensures forall c :: c in r <==> c in palette && c !in used
  {
    if |palette| == 0 then []
    else if palette[0] in used then AvailableColors(palette[1..], used)
    else [palette[0]] + AvailableColors(palette[1..], used)
  }

  /** createPlayer, with the random UUID and the fallback colour draw passed in. */
  function CreatePlayer(name: string, players: seq<Player>, id: string, fallback: real): (p: Player)
    requires IsDraw(fallback)
    ensures p.id == id && p.name == name && p.position == 0
    ensures p.color in PlayerColors
  {
    var availableColors := AvailableColors(PlayerColors, UsedColors(players));
    var color := if |availableColors| > 0 then availableColors[0]
                 else PlayerColors[FloorIndex(fallback, |PlayerColors|)];
    Player(id, name, 0, color)
  }

  lemma {:induction false} AvailableHead(palette: seq<string>, used: seq<string>, k: nat)
    requires k < |palette| && palette[k] !in used
    requires forall j :: 0 <= j < k ==> palette[j] in used
    ensures |AvailableColors(palette, used)| > 0 && AvailableColors(palette, used)[0] == palette[k]
  {
    if k > 0 {
      AvailableHead(palette[1..], used, k - 1);
    }
  }

  /** The new player gets the first palette colour no existing player has, when there is one. */
  lemma CreatePlayerFirstFree(name: string, players: seq<Player>, id: string, fallback: real, k: nat)
    requires IsDraw(fallback)
    requires k < |PlayerColors| && PlayerColors[k] !in UsedColors(players)
    requires forall j :: 0 <= j < k ==> PlayerColors[j] in UsedColors(players)
    ensures CreatePlayer(name, players, id, fallback).color == PlayerColors[k]
  {
    AvailableHead(PlayerColors, UsedColors(players), k);
  }

  lemma {:induction false} SetOfSeqSize(s: seq<string>)
    ensures |set c | c in s| <= |s|
    ensures Distinct(s) ==> |set c | c in s| == |s|
  {
    if |s| > 0 {
      SetOfSeqSize(s[1..]);
      assert (set c | c in s) == {s[0]} + (set c | c in s[1..]);
      if Distinct(s) {
        assert Distinct(s[1..]);
        assert s[0] !in s[1..];
      }
    }
  }

  lemma SubsetSize(a: set<string>, b: set<string>)
    requires a <= b
    ensures |a| <= |b|
  {
    assert b == a + (b - a);
  }

  /** With fewer than eight players the new player's colour is one nobody has yet. */
  lemma CreatePlayerFreshColor(name: string, players: seq<Player>, id: string, fallback: real)
    requires IsDraw(fallback)
    requires |players| < |PlayerColors|
    ensures CreatePlayer(name, players, id, fallback).color !in UsedColors(players)
  {
    var used := UsedColors(players);
    assert Distinct(PlayerColors);
    SetOfSeqSize(PlayerColors);
    SetOfSeqSize(used);
    var palette, taken := set c | c in PlayerColors, set c | c in used;
    if palette <= taken {
      SubsetSize(palette, taken);
    }
    var c :| c in palette && c !in taken;
    assert c in AvailableColors(PlayerColors, used);
  }

  /** movePlayer: the position advances by `steps` and wraps with JavaScript's remainder. */
  function MovePlayer(player: Player, steps: int, totalSpaces: int): (p: Player)
    requires totalSpaces != 0
    ensures p.id == player.id && p.name == player.name && p.color == player.color
    ensures player.position + steps >= 0 && totalSpaces > 0 ==> 0 <= p.position < totalSpaces
  {
    player.(position := JsRem(player.position + steps, totalSpaces))
  }

  /** For non-negative positions and steps the move is ordinary modular addition, and two moves make one. */
  lemma MoveIsModular(player: Player, s: nat, t: nat, n: nat)
    requires n > 0 && player.position >= 0
    ensures MovePlayer(player, s, n).position == (player.position + s) % n
    ensures MovePlayer(MovePlayer(player, s, n), t, n) == MovePlayer(player, s + t, n)
  {
    var p := player.position;
    var a := (p + s) % n;
    var q := (p + s) / n;
    assert p + s == q * n + a;
    assert p + s + t == q * n + (a + t);
    ModShift(a + t, q, n);
  }

  // ---------------------------------------------------------------------------
  // Game state
  // ---------------------------------------------------------------------------

  datatype GameState = GameState(
    spaces: seq<GameSpace>,
    players: seq<Player>,
    currentPlayerIndex: int,
    gameStarted: bool)

  /** The spaces generateGameSpaces builds from the quizzes and one draw per space. */
  predicate FreshSpaces(quizzes: seq<QuizConfig>, spaces: seq<GameSpace>, draws: seq<SpaceDraw>)
  {
    |spaces| == |draws| == BoardSize && Drawable(quizzes) &&
    forall i :: 0 <= i < |spaces| ==> DrawFits(draws[i]) && spaces[i] == SpaceAt(quizzes, i, draws[i])
  }

  /** initializeGameState: freshly generated spaces, no players, the first turn, not started. */
  method InitializeGameState(quizzes: seq<QuizConfig>, draws: seq<SpaceDraw>) returns (state: GameState)
    requires Drawable(quizzes)
    requires |draws| == BoardSize && forall i :: 0 <= i < |draws| ==> DrawFits(draws[i])
    ensures FreshSpaces(quizzes, state.spaces, draws)
    ensures state.players == [] && state.currentPlayerIndex == 0 && !state.gameStarted
  {
    var spaces := GenerateGameSpaces(quizzes, draws);
    state := GameState(spaces, [], 0, false);
  }

  /** The shipped catalogue is one trivia spaces can draw from. */
  lemma ShippedQuizzesDrawable()
    ensures Drawable(Quizzes)
  {
    ShippedCatalogue();
  }

  /** getNextPlayerIndex. */
  function NextPlayerIndex(currentIndex: int, totalPlayers: int): (r: int)
    requires totalPlayers != 0
    ensures 0 <= currentIndex < totalPlayers ==> 0 <= r < totalPlayers
  {
    JsRem(currentIndex + 1, totalPlayers)
  }

  /** Turns go round: each index hands on to the next, and the last hands back to the first. */
  lemma NextPlayerIndexRotates(i: int, n: int)
    requires 0 <= i < n
    ensures i < n - 1 ==> NextPlayerIndex(i, n) == i + 1
    ensures i == n - 1 ==> NextPlayerIndex(i, n) == 0
  {
  }

  datatype WheelType = PriceWheel | PunishmentWheel | RulesWheel

  /** getRandomWheelType: each wheel takes a third of the range of the draw. */
  function RandomWheelType(r: real): (w: WheelType)
    requires IsDraw(r)
    ensures w == PriceWheel <==> 3.0 * r < 1.0
    ensures w == PunishmentWheel <==> 1.0 <= 3.0 * r < 2.0
    ensures w == RulesWheel <==> 2.0 <= 3.0 * r
  {
    var wheelTypes := [PriceWheel, PunishmentWheel, RulesWheel];
    wheelTypes[FloorIndex(r, |wheelTypes|)]
  }

  // ---------------------------------------------------------------------------
  // Trivia lookup
  // ---------------------------------------------------------------------------

  /** The index `Array.prototype.find` stops at when looking for a question id. */
  function FindQuestionIndex(questions: seq<QuizQuestion>, id: string): (r: Option<nat>)
    ensures r.None? <==> forall j :: 0 <= j < |questions| ==> questions[j].id != id
    ensures r.Some? ==> r.value < |questions| && questions[r.value].id == id
    ensures r.Some? ==> forall j :: 0 <= j < r.value ==> questions[j].id != id
  {
    if |questions| == 0 then None
    else if questions[0].id == id then Some(0)
    else
      match FindQuestionIndex(questions[1..], id)
      case None => None
      case Some(k) => Some(k + 1)
  }

  /** `Array.prototype.find` by question id. */
  function FindQuestion(questions: seq<QuizQuestion>, id: string): Option<QuizQuestion>
  {
    match FindQuestionIndex(questions, id)
    case None => None
    case Some(j) => Some(questions[j])
  }

  /** The question getTriviaQuestionById returns: the first match in the first quiz that has one. */
  function FirstQuestionWithId(quizzes: seq<QuizConfig>, id: string): Option<QuizQuestion>
  {
    if |quizzes| == 0 then None
    else
      match FindQuestion(quizzes[0].questions, id)
      case Some(q) => Some(q)
      case None => FirstQuestionWithId(quizzes[1..], id)
  }

  /** A lookup finds nothing exactly when no quiz has a question with that id, and otherwise a question with that id. */
  lemma {:induction false} FirstQuestionWithIdSpec(quizzes: seq<QuizConfig>, id: string)
    ensures FirstQuestionWithId(quizzes, id).None? <==>
            forall k, j :: 0 <= k < |quizzes| && 0 <= j < |quizzes[k].questions| ==> quizzes[k].questions[j].id != id
    ensures FirstQuestionWithId(quizzes, id).Some? ==> FirstQuestionWithId(quizzes, id).value.id == id
  {
    if |quizzes| > 0 {
      FirstQuestionWithIdSpec(quizzes[1..], id);
      if FindQuestion(quizzes[0].questions, id).None? {
        forall k, j | 0 <= k < |quizzes| && 0 <= j < |quizzes[k].questions| && quizzes[k].questions[j].id == id
          ensures FirstQuestionWithId(quizzes, id).Some?
        {
          assert k > 0;
          assert quizzes[1..][k - 1] == quizzes[k];
        }
      }
    }
  }

  /** A question id found in the first quiz is resolved there, whatever the later quizzes hold. */
  lemma FirstQuizWins(quizzes: seq<QuizConfig>, id: string, j: nat)
    requires |quizzes| > 0 && j < |quizzes[0].questions| && quizzes[0].questions[j].id == id
    requires forall j' :: 0 <= j' < j ==> quizzes[0].questions[j'].id != id
    ensures FirstQuestionWithId(quizzes, id) == Some(quizzes[0].questions[j])
  {
    var r := FindQuestionIndex(quizzes[0].questions, id);
    assert r == Some(j);
  }

  /** The quiz that answers a lookup is the first one holding the id: earlier quizzes are skipped, later ones never read. */
  lemma {:induction false} FirstMatchingQuiz(quizzes: seq<QuizConfig>, id: string, k: nat)
    requires k < |quizzes| && FindQuestion(quizzes[k].questions, id).Some?
    requires forall k' :: 0 <= k' < k ==> FindQuestion(quizzes[k'].questions, id).None?
    ensures FirstQuestionWithId(quizzes, id) == FindQuestion(quizzes[k].questions, id)
  {
    if k > 0 {
      var rest := quizzes[1..];
      forall k' | 0 <= k' < k - 1
        ensures FindQuestion(rest[k'].questions, id).None?
      {
        assert rest[k'] == quizzes[k' + 1];
      }
      assert rest[k - 1] == quizzes[k];
      FirstMatchingQuiz(rest, id, k - 1);
      assert FindQuestion(quizzes[0].questions, id).None?;
    }
  }

  /** getTriviaQuestionById: scans the quizzes in order and returns the first match. */
  method GetTriviaQuestionById(quizzes: seq<QuizConfig>, questionId: string) returns (r: Option<QuizQuestion>)
    ensures r == FirstQuestionWithId(quizzes, questionId)
  {
    for k := 0 to |quizzes|
      invariant FirstQuestionWithId(quizzes[k..], questionId) == FirstQuestionWithId(quizzes, questionId)
    {
      var question := FindQuestion(quizzes[k].questions, questionId);
      if question.Some? {
        return question;
      }
      assert quizzes[k..][1..] == quizzes[k + 1..];
    }
    return None;
  }

  /**
   * Trivia spaces store only a question id, and the two shipped quizzes both
   * number their questions from "1": every id of the Norway quiz resolves to
   * the general quiz's question with the same position.
   */
  lemma TriviaIdsResolveToMixedQuiz(salt: string, j: nat)
    requires j < |NorwayQuestions|
    ensures FirstQuestionWithId(Catalogue(salt), NorwayQuiz(salt).questions[j].id) == Some(MixedQuiz(salt).questions[j])
  {
    QuestionIds();
    CatalogueQuestionIds(salt);
    FirstQuizWins(Catalogue(salt), NorwayQuestions[j].id, j);
  }
}

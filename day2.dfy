/** Day 2, Rock Paper Scissors: a strategy guide lists games, one per line, as an
    opponent's move code and a second code; score every game and add the scores up. */
module Day2 {
  import opened Wrappers
  import opened Text
  import opened Sums

  /** The outcome of a game, by its score (the raw value). */
  datatype Outcome = Loss | Draw | Win {

    function Score(): (s: nat)
      ensures s == 0 || s == 3 || s == 6
    {
      match this
      case Loss => 0
      case Draw => 3
      case Win => 6
    }
  }

  /** `Outcome(_:)`: X loses, Y draws, Z wins; any other code traps. */
  function DecodeOutcome(outcomeCode: string): (r: Result<Outcome>)
    ensures r.Fatal? <==> outcomeCode !in {"X", "Y", "Z"}
    ensures r.Fatal? ==> r.message == "Unknown outcome code: " + outcomeCode + "!"
  {
    match outcomeCode
    case "X" => Ok(Loss)
    case "Y" => Ok(Draw)
    case "Z" => Ok(Win)
    case _ => Fatal("Unknown outcome code: " + outcomeCode + "!")
  }

  /** The code a strategy guide uses for an outcome. */
  function OutcomeCode(outcome: Outcome): string {
    match outcome
    case Loss => "X"
    case Draw => "Y"
    case Win => "Z"
  }

  /** Every outcome decodes from its own code. */
  lemma DecodeOutcomeCode(outcome: Outcome)
    ensures DecodeOutcome(OutcomeCode(outcome)) == Ok(outcome)
  {
  }

  /** A move, whose raw value 1, 2, 3 is also its score. */
  datatype Move = Rock | Paper | Scissors {

    function RawValue(): (raw: nat)
      ensures 1 <= raw <= 3
    {
      match this
      case Rock => 1
      case Paper => 2
      case Scissors => 3
    }

    function Score(): (s: nat)
      ensures 1 <= s <= 3
    {
      RawValue()
    }

    /** The move this one beats: one step back in the cycle of raw values. */
    function WinsAgainst(): (m: Move)
      ensures m != this
    {
      MoveWithRawValue((RawValue() - 1 + 2) % 3 + 1).value
    }

    /** The move that beats this one: one step on in the cycle of raw values. */
    function LosesTo(): (m: Move)
      ensures m != this
    {
      MoveWithRawValue((RawValue() - 1 + 1) % 3 + 1).value
    }
  }

  /** `Move(rawValue:)`: the move with that raw value, if there is one. */
  function MoveWithRawValue(raw: int): (r: Option<Move>)
    ensures r.Some? <==> 1 <= raw <= 3
    ensures r.Some? ==> r.value.RawValue() == raw
  {
    if raw == 1 then Some(Rock)
    else if raw == 2 then Some(Paper)
    else if raw == 3 then Some(Scissors)
    else None
  }

  /** The cycle the raw-value arithmetic walks: rock beats scissors, scissors beat paper,
      paper beats rock. */
  lemma Cycle()
    ensures Rock.WinsAgainst() == Scissors && Paper.WinsAgainst() == Rock && Scissors.WinsAgainst() == Paper
    ensures Rock.LosesTo() == Paper && Paper.LosesTo() == Scissors && Scissors.LosesTo() == Rock
  {
    assert Rock.RawValue() == 1 && Paper.RawValue() == 2 && Scissors.RawValue() == 3;
  }

  /** Stepping back and on in the cycle undo each other. */
  lemma WinsAgainstLosesTo(m: Move)
    ensures m.WinsAgainst().LosesTo() == m
    ensures m.LosesTo().WinsAgainst() == m
  {
    match m
    case Rock => Cycle();
    case Paper => Cycle();
    case Scissors => Cycle();
  }

  /** `Move(_:)`: A or X is rock, B or Y paper, C or Z scissors; any other code traps. */
  function DecodeMove(moveCode: string): (r: Result<Move>)
    ensures r.Fatal? <==> moveCode !in {"A", "B", "C", "X", "Y", "Z"}
    ensures r.Fatal? ==> r.message == "Unknown move code: " + moveCode + "!"
  {
    match moveCode
    case "A" => Ok(Rock)
    case "X" => Ok(Rock)
    case "B" => Ok(Paper)
    case "Y" => Ok(Paper)
    case "C" => Ok(Scissors)
    case "Z" => Ok(Scissors)
    case _ => Fatal("Unknown move code: " + moveCode + "!")
  }

  /** The codes a strategy guide uses for the opponent's move and for one's own. */
  function OpponentCode(m: Move): string {
    match m
    case Rock => "A"
    case Paper => "B"
    case Scissors => "C"
  }

  function MoveCode(m: Move): string {
    match m
    case Rock => "X"
    case Paper => "Y"
    case Scissors => "Z"
  }

  /** Every move decodes from both of its codes. */
  lemma DecodeMoveCodes(m: Move)
    ensures DecodeMove(OpponentCode(m)) == Ok(m) && DecodeMove(MoveCode(m)) == Ok(m)
  {
  }

  /** One game: the opponent's move and one's own. */
  datatype Game = Game(opponentMove: Move, move: Move) {

    /** The `outcome` getter: equal moves draw; rock beats scissors, paper beats rock and
        scissors beat paper. */
    function Outcome(): Outcome {
      if move == opponentMove then Draw
      else
        match (move, opponentMove)
        case (Rock, Scissors) => Win
        case (Paper, Rock) => Win
        case (Scissors, Paper) => Win
        case _ => Loss
    }

    /** The `outcome` setter: keeps the opponent's move and picks the move that gives
        the desired outcome. */
    function WithOutcome(desiredOutcome: Outcome): (g: Game)
      ensures g.opponentMove == opponentMove
      ensures g.Outcome() == desiredOutcome
    {
      match desiredOutcome
      case Draw => this.(move := opponentMove)
      case Loss => this.(move := opponentMove.WinsAgainst())
      case Win => this.(move := opponentMove.LosesTo())
    }

    function Score(): (s: nat)
      ensures 1 <= s <= 9
    {
      move.Score() + Outcome().Score()
    }
  }

  /** The getter's table of wins is the cycle of `winsAgainst`: a game is won exactly when
      one's move beats the opponent's, and lost exactly when the opponent's beats one's. */
  lemma OutcomeFollowsCycle(g: Game)
    ensures g.Outcome() == Win <==> g.move.WinsAgainst() == g.opponentMove
    ensures g.Outcome() == Loss <==> g.opponentMove.WinsAgainst() == g.move
    ensures g.Outcome() == Draw <==> g.move == g.opponentMove
  {
  }

  /** Setting the outcome a game already has leaves the game as it is. */
  lemma WithOwnOutcome(g: Game)
    ensures g.WithOutcome(g.Outcome()) == g
  {
  }

  /** `Game(opponentMoveCode:moveCode:)`: the opponent's code is decoded first. */
  function NewGame(opponentMoveCode: string, moveCode: string): (r: Result<Game>)
    ensures r.Ok? <==> DecodeMove(opponentMoveCode).Ok? && DecodeMove(moveCode).Ok?
    ensures r.Ok? ==> r.value == Game(DecodeMove(opponentMoveCode).value, DecodeMove(moveCode).value)
  {
    var opponentMove :- DecodeMove(opponentMoveCode);
    var move :- DecodeMove(moveCode);
    Ok(Game(opponentMove, move))
  }

  /** The message of the assertion on a line that does not hold exactly two codes. */
  function WrongCodeCount(rawGame: string): string {
    "Invalid number of moves in game: " + rawGame + "!"
  }

  /** One line of the guide. The second code is always decoded as a move first, so in
      outcome mode it must be a valid move code as well as a valid outcome code. */
  function ParseGame(rawGame: string, secondCodeDenotesOutcome: bool): (r: Result<Game>)
    ensures |SplitOmittingEmpty(rawGame, " ")| != 2 ==> r == Fatal(WrongCodeCount(rawGame))
    ensures r.Ok? ==> var codes := SplitOmittingEmpty(rawGame, " ");
      |codes| == 2 && DecodeMove(codes[0]) == Ok(r.value.opponentMove)
      && (if secondCodeDenotesOutcome then DecodeOutcome(codes[1]) == Ok(r.value.Outcome())
          else DecodeMove(codes[1]) == Ok(r.value.move))
    ensures var codes := SplitOmittingEmpty(rawGame, " ");
      r.Ok? <==>
        |codes| == 2 && DecodeMove(codes[0]).Ok? && DecodeMove(codes[1]).Ok?
        && (secondCodeDenotesOutcome ==> DecodeOutcome(codes[1]).Ok?)
    ensures var codes := SplitOmittingEmpty(rawGame, " ");
      r.Fatal? && |codes| == 2 ==>
        r.message == (if DecodeMove(codes[0]).Fatal? then DecodeMove(codes[0]).message
                      else if DecodeMove(codes[1]).Fatal? then DecodeMove(codes[1]).message
                      else DecodeOutcome(codes[1]).message)
  {
    var rawCodes := SplitOmittingEmpty(rawGame, " ");
    if |rawCodes| != 2 then Fatal(WrongCodeCount(rawGame))
    else
      var game :- NewGame(rawCodes[0], rawCodes[1]);
      if secondCodeDenotesOutcome then
        var outcome :- DecodeOutcome(rawCodes[1]);
        Ok(game.WithOutcome(outcome))
      else Ok(game)
  }

  /** The games of the lines, in order; the first line that fails stops the parse. */
  function ParseGameLines(rawGames: seq<string>, secondCodeDenotesOutcome: bool): (r: Result<seq<Game>>)
    ensures r.Ok? ==> |r.value| == |rawGames|
  {
    if |rawGames| == 0 then Ok([])
    else
      var game :- ParseGame(rawGames[0], secondCodeDenotesOutcome);
      var rest :- ParseGameLines(rawGames[1..], secondCodeDenotesOutcome);
      Ok([game] + rest)
  }

  lemma ParseGameLinesStep(rawGames: seq<string>, i: nat, secondCodeDenotesOutcome: bool)
    requires i < |rawGames|
    ensures ParseGame(rawGames[i], secondCodeDenotesOutcome).Fatal? ==>
      ParseGameLines(rawGames[i..], secondCodeDenotesOutcome) == Fatal(ParseGame(rawGames[i], secondCodeDenotesOutcome).message)
    ensures ParseGame(rawGames[i], secondCodeDenotesOutcome).Ok? ==>
      ParseGameLines(rawGames[i..], secondCodeDenotesOutcome)
        == Prepend([ParseGame(rawGames[i], secondCodeDenotesOutcome).value], ParseGameLines(rawGames[i + 1..], secondCodeDenotesOutcome))
  {
    assert rawGames[i..][1..] == rawGames[i + 1..];
  }

  /** `parseRockPaperScissorsGames`: one game per non-empty line. */
  method ParseRockPaperScissorsGames(rawInput: string, secondCodeDenotesOutcome: bool) returns (r: Result<seq<Game>>)
    ensures r == ParseGameLines(SplitOmittingEmpty(rawInput, "\n"), secondCodeDenotesOutcome)
  {
    var rawGames := SplitOmittingEmpty(rawInput, "\n");
    var games: seq<Game> := [];
    assert rawGames[0..] == rawGames;
    PrependNothing(ParseGameLines(rawGames, secondCodeDenotesOutcome));
    var i := 0;
    while i < |rawGames|
      invariant 0 <= i <= |rawGames|
      invariant ParseGameLines(rawGames, secondCodeDenotesOutcome)
        == Prepend(games, ParseGameLines(rawGames[i..], secondCodeDenotesOutcome))
    {
      var rawGame := rawGames[i];
      var rawCodes := SplitOmittingEmpty(rawGame, " ");
      ParseGameLinesStep(rawGames, i, secondCodeDenotesOutcome);
      if |rawCodes| != 2 {
        return Fatal(WrongCodeCount(rawGame));
      }
      var opponentMoveCode := rawCodes[0];
      var secondCode := rawCodes[1];
      var newGame := NewGame(opponentMoveCode, secondCode);
      if newGame.Fatal? {
        return Fatal(newGame.message);
      }
      var game := newGame.value;
      if secondCodeDenotesOutcome {
        var outcome := DecodeOutcome(secondCode);
        if outcome.Fatal? {
          return Fatal(outcome.message);
        }
        game := game.WithOutcome(outcome.value);
      }
      PrependAppend(games, [game], ParseGameLines(rawGames[i + 1..], secondCodeDenotesOutcome));
      games := games + [game];
      i := i + 1;
    }
    assert rawGames[i..] == [];
    assert games + [] == games;
    r := Ok(games);
  }

  /** A guide line for a game: the opponent's code, a space, then one's own move's code. */
  function MoveLine(g: Game): string {
    OpponentCode(g.opponentMove) + " " + MoveCode(g.move)
  }

  /** A guide line for part two: the opponent's code, a space, then the desired outcome's code. */
  function OutcomeLine(g: Game): string {
    OpponentCode(g.opponentMove) + " " + OutcomeCode(g.Outcome())
  }

  /** Two one-letter codes separated by a space read back as those codes. */
  lemma SplitCodes(first: string, second: string)
    requires |first| == 1 && |second| == 1 && first[0] != ' ' && second[0] != ' '
    ensures SplitOmittingEmpty(first + " " + second, " ") == [first, second]
  {
    assert ' ' !in first && ' ' !in second;
    assert Join([first, second], " ") == first + " " + second;
    SplitOfJoin([first, second], ' ');
    NonEmptyKeepsAll([first, second]);
  }

  /** A game reads back from its move line when the second code is a move. */
  lemma ParseMoveLine(g: Game)
    ensures ParseGame(MoveLine(g), false) == Ok(g)
  {
    SplitCodes(OpponentCode(g.opponentMove), MoveCode(g.move));
    DecodeMoveCodes(g.opponentMove);
    DecodeMoveCodes(g.move);
  }

  /** A game reads back from its outcome line when the second code is an outcome: the
      chosen move is the one that reaches that outcome against the opponent. */
  lemma ParseOutcomeLine(g: Game)
    ensures ParseGame(OutcomeLine(g), true) == Ok(g)
  {
    SplitCodes(OpponentCode(g.opponentMove), OutcomeCode(g.Outcome()));
    DecodeMoveCodes(g.opponentMove);
    DecodeOutcomeCode(g.Outcome());
    WithOwnOutcome(g);
  }

  /** `calculateTotalScore`: the games' scores added up from the left. */
  function CalculateTotalScore(games: seq<Game>): int {
    if |games| == 0 then 0 else CalculateTotalScore(games[..|games| - 1]) + games[|games| - 1].Score()
  }

  /** The games' scores, in order. */
  function Scores(games: seq<Game>): (scores: seq<int>)
    ensures |scores| == |games|
    ensures forall i :: 0 <= i < |games| ==> scores[i] == games[i].Score()
  {
    if |games| == 0 then [] else Scores(games[..|games| - 1]) + [games[|games| - 1].Score()]
  }

  /** The total score is the sum of the games' scores. */
  lemma {:induction false} TotalIsSumOfScores(games: seq<Game>)
    ensures CalculateTotalScore(games) == Sum(Scores(games))
  {
    if |games| > 0 {
      var scores := Scores(games);
      assert scores[..|scores| - 1] == Scores(games[..|games| - 1]);
      TotalIsSumOfScores(games[..|games| - 1]);
    }
  }

  /** Every game scores between 1 and 9, so the total lies between the number of games and
      nine times that number. */
  lemma {:induction false} TotalScoreBounds(games: seq<Game>)
    ensures |games| <= CalculateTotalScore(games) <= 9 * |games|
  {
    if |games| > 0 {
      TotalScoreBounds(games[..|games| - 1]);
    }
  }

  /** The total of a guide followed by more games is the sum of the two totals. */
  lemma {:induction false} TotalScoreAppend(games: seq<Game>, more: seq<Game>)
    ensures CalculateTotalScore(games + more) == CalculateTotalScore(games) + CalculateTotalScore(more)
    decreases |more|
  {
    if |more| == 0 {
      assert games + more == games;
    } else {
      assert (games + more)[..|games + more| - 1] == games + more[..|more| - 1];
      TotalScoreAppend(games, more[..|more| - 1]);
    }
  }

  /** `partOne`: the second code is one's own move. */
  method PartOne(rawInput: string) returns (r: Result<int>)
    ensures r.Ok? <==> ParseGameLines(SplitOmittingEmpty(rawInput, "\n"), false).Ok?
    ensures r.Ok? ==> r.value == CalculateTotalScore(ParseGameLines(SplitOmittingEmpty(rawInput, "\n"), false).value)
    ensures r.Ok? ==> |SplitOmittingEmpty(rawInput, "\n")| <= r.value <= 9 * |SplitOmittingEmpty(rawInput, "\n")|
    ensures r.Fatal? ==> r.message == ParseGameLines(SplitOmittingEmpty(rawInput, "\n"), false).message
  {
    var games := ParseRockPaperScissorsGames(rawInput, false);
    if games.Fatal? {
      return Fatal(games.message);
    }
    TotalScoreBounds(games.value);
    r := Ok(CalculateTotalScore(games.value));
  }

  /** `partTwo`: the second code is the outcome the game must have. */
  method PartTwo(rawInput: string) returns (r: Result<int>)
    ensures r.Ok? <==> ParseGameLines(SplitOmittingEmpty(rawInput, "\n"), true).Ok?
    ensures r.Ok? ==> r.value == CalculateTotalScore(ParseGameLines(SplitOmittingEmpty(rawInput, "\n"), true).value)
    ensures r.Ok? ==> |SplitOmittingEmpty(rawInput, "\n")| <= r.value <= 9 * |SplitOmittingEmpty(rawInput, "\n")|
    ensures r.Fatal? ==> r.message == ParseGameLines(SplitOmittingEmpty(rawInput, "\n"), true).message
  {
    var games := ParseRockPaperScissorsGames(rawInput, true);
    if games.Fatal? {
      return Fatal(games.message);
    }
    TotalScoreBounds(games.value);
    r := Ok(CalculateTotalScore(games.value));
  }
}

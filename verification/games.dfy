/**
 The game controller (`Game`): it owns the question queue and the current stage,
 applies attempt penalties, draws new stages and decides when the game ends. One
 turn of the interactive loop is the pure function `Turn`; the loop is `Run`.
 */
module Games {
  import opened Wrappers
  import opened Quizzes
  import opened Stages

  /** Why a transition could not complete: a stage was built from an absent question. */
  datatype Fault = NoQuestion

  datatype Game = Game(quiz: Quiz, stage: Stage)

  /** What `next` returns: the current game and whether the loop stops. */
  datatype GameState = GameState(game: Game, done: bool)

  /** Which message a turn shows, one per branch of the guess evaluation. */
  datatype Verdict = EnterSomething | Correct | NotCorrect | Hit | NotInclude

  /** The message of a turn and the state it leads to (or the fault that stops it). */
  datatype TurnResult = TurnResult(verdict: Verdict, outcome: Result<GameState, Fault>)

  /** The game ends when no attempts remain, or when the last question is solved. */
  predicate ShouldEnd(g: Game) {
    IsGameOver(g.stage) || (!HasNext(g.quiz) && IsCorrect(g.stage))
  }

  /** The stage that `next` starts from: penalised by one attempt unless the guess was correct. */
  function Penalised(s: Stage, isCorrect: bool): Stage {
    if isCorrect then s else DecrementAttempts(s)
  }

  /** The constructor: the first stage is drawn from the whole question list. */
  function NewGame(questions: seq<Question>, roll: real): (r: Result<GameState, Fault>)
    requires IsRoll(roll)
    ensures r.Failure? <==> |questions| == 0
    ensures r.Ok? ==>
      && !r.value.done
      && Valid(r.value.game.stage) && Consistent(r.value.game.stage)
      && r.value.game.stage == NewStage(r.value.game.stage.question)
      && r.value.game.stage.leftAttempts == InitialAttempts
      && r.value.game.stage.question in questions
      && Lefts(r.value.game.quiz) == |questions| - 1
      && multiset(r.value.game.quiz.questions) + multiset{r.value.game.stage.question} == multiset(questions)
  {
    var d := GetNext(Quiz(questions), roll);
    match d.question
    case None => Failure(NoQuestion)
    case Some(q) => Ok(GameState(Game(d.rest, NewStage(q)), false))
  }

  /**
   `next(isCorrect)`: a wrong guess costs one attempt; if the game should then end
   it stops with the stage as it is; otherwise a correct guess draws a fresh stage.
   */
  function Next(g: Game, isCorrect: bool, roll: real): (r: Result<GameState, Fault>)
    requires IsRoll(roll)
    requires Valid(g.stage)
    ensures r.Failure? <==> isCorrect && !ShouldEnd(g) && !HasNext(g.quiz)
    ensures r.Ok? ==> Valid(r.value.game.stage)
    ensures r.Ok? ==>
      var s := Penalised(g.stage, isCorrect);
      r.value.done <==> s.leftAttempts == 0 || (Lefts(g.quiz) == 0 && s.answer == s.question.word)
    ensures !isCorrect ==> r.Ok? && r.value.game.stage.leftAttempts == g.stage.leftAttempts - 1
    ensures !isCorrect ==>
      && r.Ok?
      && r.value.game.quiz == g.quiz
      && r.value.game.stage.question == g.stage.question
      && r.value.game.stage.answer == g.stage.answer
    ensures r.Ok? && r.value.done ==>
      r.value.game.quiz == g.quiz && r.value.game.stage == Penalised(g.stage, isCorrect)
    ensures r.Ok? && !r.value.done && isCorrect ==>
      && r.value.game.stage == NewStage(r.value.game.stage.question)
      && r.value.game.stage.leftAttempts == InitialAttempts
      && |r.value.game.stage.answer| == |r.value.game.stage.question.word|
      && r.value.game.stage.question in g.quiz.questions
      && Lefts(r.value.game.quiz) == Lefts(g.quiz) - 1
      && multiset(r.value.game.quiz.questions) + multiset{r.value.game.stage.question} == multiset(g.quiz.questions)
  {
    var g1 := g.(stage := Penalised(g.stage, isCorrect));
    if ShouldEnd(g1) then Ok(GameState(g1, true))
    else if isCorrect then
      var d := GetNext(g1.quiz, roll);
      match d.question
      case None => Failure(NoQuestion)
      case Some(q) => Ok(GameState(Game(d.rest, NewStage(q)), false))
    else Ok(GameState(g1, false))
  }

  /** A guess whose evaluation costs an attempt. */
  predicate IsPenalty(v: Verdict) {
    v == EnterSomething || v == NotCorrect || v == NotInclude
  }

  /**
   One iteration of the interactive loop on a normalised guess, in the source's
   precedence order: empty input, solved word, too long, partial hit, miss.
   */
  function Turn(g: Game, userInput: string, roll: real): (t: TurnResult)
    requires IsRoll(roll)
    requires Valid(g.stage)
    ensures t.verdict == EnterSomething <==> |userInput| == 0
    ensures t.verdict == Correct <==> |userInput| > 0 && IsCorrect(UpdateAnswer(g.stage, userInput))
    ensures t.verdict == NotCorrect <==>
      |userInput| > 0 && !IsCorrect(UpdateAnswer(g.stage, userInput)) && IsTooLong(g.stage, userInput)
    ensures t.verdict == Hit <==>
      && |userInput| > 0
      && !IsCorrect(UpdateAnswer(g.stage, userInput))
      && !IsTooLong(g.stage, userInput)
      && IsIncludes(g.stage, userInput)
    ensures t.verdict == Correct ==> t.outcome == Next(g.(stage := UpdateAnswer(g.stage, userInput)), true, roll)
    ensures t.verdict == Hit ==> t.outcome == Ok(GameState(g.(stage := UpdateAnswer(g.stage, userInput)), false))
    ensures IsPenalty(t.verdict) ==>
      && t.outcome.Ok?
      && t.outcome.value.game.quiz == g.quiz
      && t.outcome.value.game.stage == DecrementAttempts(g.stage)
      && (t.outcome.value.done <==> ShouldEnd(g.(stage := DecrementAttempts(g.stage))))
    ensures t.outcome.Failure? ==> t.verdict == Correct && !HasNext(g.quiz)
    ensures t.outcome.Ok? ==> Valid(t.outcome.value.game.stage)
  {
    if |userInput| == 0 then TurnResult(EnterSomething, Next(g, false, roll))
    else
      var g1 := g.(stage := UpdateAnswer(g.stage, userInput));
      if IsCorrect(g1.stage) then TurnResult(Correct, Next(g1, true, roll))
      else if IsTooLong(g1.stage, userInput) then
        TooLongNotIncluded(g.stage, userInput);
        UpdateAnswerMissing(g.stage, userInput);
        TurnResult(NotCorrect, Next(g1, false, roll))
      else if IsIncludes(g1.stage, userInput) then TurnResult(Hit, Ok(GameState(g1, false)))
      else
        UpdateAnswerMissing(g.stage, userInput);
        TurnResult(NotInclude, Next(g1, false, roll))
  }

  /** Every entry of `rolls` is a possible `Math.random()` value. */
  predicate AllRolls(rolls: seq<real>) {
    forall i :: 0 <= i < |rolls| ==> IsRoll(rolls[i])
  }

  /** The loop: play one turn per guess until the game is done or the guesses run out. */
  function Run(st: GameState, inputs: seq<string>, rolls: seq<real>): (r: Result<GameState, Fault>)
    requires |rolls| == |inputs| && AllRolls(rolls)
    requires Valid(st.game.stage)
    decreases |inputs|
    ensures r.Ok? ==> Valid(r.value.game.stage)
    ensures |inputs| == 0 || st.done ==> r == Ok(st)
  {
    if st.done || |inputs| == 0 then Ok(st)
    else
      match Turn(st.game, inputs[0], rolls[0]).outcome
      case Failure(e) => Failure(e)
      case Ok(next) => Run(next, inputs[1..], rolls[1..])
  }

  /**
   What holds of every state the loop reaches: the mask is consistent with the
   word, attempts stay between 0 and 5, and a running game has an attempt left.
   */
  predicate Invariant(st: GameState) {
    var s := st.game.stage;
    && Consistent(s)
    && 0 <= s.leftAttempts <= InitialAttempts
    && (!st.done ==> s.leftAttempts > 0)
  }

  /** The initial state satisfies the invariant. */
  lemma NewGameInvariant(questions: seq<Question>, roll: real)
    requires IsRoll(roll) && |questions| > 0
    ensures NewGame(questions, roll).Ok? && Invariant(NewGame(questions, roll).value)
  {
  }

  /**
   A turn of a running game never draws from an empty queue (a new stage is drawn
   only after the word is solved, and then an empty queue ends the game first),
   and it keeps the invariant.
   */
  lemma TurnInvariant(st: GameState, userInput: string, roll: real)
    requires IsRoll(roll) && Invariant(st) && !st.done
    ensures Turn(st.game, userInput, roll).outcome.Ok?
    ensures Invariant(Turn(st.game, userInput, roll).outcome.value)
  {
  }

  /** The whole loop never faults and keeps the invariant, so attempts never go below 0. */
  lemma {:induction false} RunInvariant(st: GameState, inputs: seq<string>, rolls: seq<real>)
    requires |rolls| == |inputs| && AllRolls(rolls)
    requires Invariant(st)
    decreases |inputs|
    ensures Run(st, inputs, rolls).Ok?
    ensures Invariant(Run(st, inputs, rolls).value)
  {
    if !st.done && |inputs| > 0 {
      TurnInvariant(st, inputs[0], rolls[0]);
      var next := Turn(st.game, inputs[0], rolls[0]).outcome.value;
      RunInvariant(next, inputs[1..], rolls[1..]);
    }
  }

  /**
   Repeating a partial hit changes nothing: the second turn is again a hit and
   leads to the same state, which is why the loop need not terminate.
   */
  lemma HitIsFixpoint(g: Game, userInput: string, roll: real, roll': real)
    requires IsRoll(roll) && IsRoll(roll') && Valid(g.stage)
    requires Turn(g, userInput, roll).verdict == Hit
    ensures Turn(Turn(g, userInput, roll).outcome.value.game, userInput, roll') == Turn(g, userInput, roll)
  {
    UpdateAnswerIdempotent(g.stage, userInput);
  }
}

/** Concrete plays of the game, worked through the model. */
module Scenarios {
  import opened Wrappers
  import opened Matching
  import opened Quizzes
  import opened Stages
  import opened Games

  /** The scan resumes after each match: "aa" in "aaa" reveals only the first two characters. */
  lemma NonOverlappingScan()
    ensures UpdateAnswer(NewStage(Question("aaa", "")), "aa").answer == "aa_"
  {
  }

  /** The word "cat" as the last question, with the given mask and attempts. */
  function Cat(answer: string, attempts: int): Game {
    Game(Quiz([]), Stage(Question("cat", "animal"), answer, attempts))
  }

  /**
   The word "cat" as the last question: a miss, a too-long guess, a partial hit
   and the full word, in that order.
   */
  lemma CatScenario()
    ensures Cat("___", 5).stage == NewStage(Question("cat", "animal"))
    ensures Turn(Cat("___", 5), "dog", 0.0) == TurnResult(NotInclude, Ok(GameState(Cat("___", 4), false)))
    ensures Turn(Cat("___", 4), "cats", 0.0) == TurnResult(NotCorrect, Ok(GameState(Cat("___", 3), false)))
    ensures Turn(Cat("___", 3), "at", 0.0) == TurnResult(Hit, Ok(GameState(Cat("_at", 3), false)))
    ensures Turn(Cat("_at", 3), "cat", 0.0) == TurnResult(Correct, Ok(GameState(Cat("cat", 3), true)))
  {
    CatMiss();
    CatTooLong();
    CatHit();
    CatSolve();
  }

  lemma CatMiss()
    ensures Turn(Cat("___", 5), "dog", 0.0) == TurnResult(NotInclude, Ok(GameState(Cat("___", 4), false)))
  {
    var s := Cat("___", 5).stage;
    assert "cat"[0..3][0] != "dog"[0];
    assert IndexOf("cat", "dog", 1) == None;
    assert !IsIncludes(s, "dog");
    UpdateAnswerMissing(s, "dog");
  }

  lemma CatTooLong()
    ensures Turn(Cat("___", 4), "cats", 0.0) == TurnResult(NotCorrect, Ok(GameState(Cat("___", 3), false)))
  {
  }

  lemma CatHit()
    ensures Turn(Cat("___", 3), "at", 0.0) == TurnResult(Hit, Ok(GameState(Cat("_at", 3), false)))
  {
    var s := Cat("___", 3).stage;
    assert UpdateAnswer(s, "at").answer == "_at";
  }

  lemma CatSolve()
    ensures Turn(Cat("_at", 3), "cat", 0.0) == TurnResult(Correct, Ok(GameState(Cat("cat", 3), true)))
  {
  }
}

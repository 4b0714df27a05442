/**
 One word's guessing state (`Stage`): the masked answer shown to the player and
 the number of attempts left.
 */
module Stages {
  import opened Matching
  import opened Quizzes

  /** The placeholder shown for a character not yet revealed. */
  const Hidden: char := '_'

  /** Attempts a fresh stage starts with. */
  const InitialAttempts: int := 5

  /**
   `answer` is the mask; `leftAttempts` is a plain number in the source and is
   decremented without a floor, so it is an `int` here.
   */
  datatype Stage = Stage(question: Question, answer: string, leftAttempts: int)

  /** The mask is exactly as long as the word (every splice replaces as many characters as it inserts). */
  predicate Valid(s: Stage) {
    |s.answer| == |s.question.word|
  }

  /** Every mask character is either still hidden or the word's own character. */
  predicate Consistent(s: Stage) {
    Valid(s) && forall i :: 0 <= i < |s.answer| ==> s.answer[i] == Hidden || s.answer[i] == s.question.word[i]
  }

  /** A stage for `q`: the mask is all placeholders and five attempts remain. */
  function NewStage(q: Question): (s: Stage)
    ensures s.question == q
    ensures Valid(s) && Consistent(s)
    ensures forall i :: 0 <= i < |s.answer| ==> s.answer[i] == Hidden
    ensures s.leftAttempts == InitialAttempts
  {
    Stage(q, seq(|q.word|, _ => Hidden), InitialAttempts)
  }

  /** One attempt fewer; the mask and the question are kept. */
  function DecrementAttempts(s: Stage): (r: Stage)
    ensures r.leftAttempts == s.leftAttempts - 1
    ensures r.question == s.question && r.answer == s.answer
  {
    s.(leftAttempts := s.leftAttempts - 1)
  }

  /** `u` occurs in the word at a match the scan visits, covering index `i`. */
  predicate Revealed(word: string, u: string, i: int) {
    |u| > 0 && Covered(Matches(word, u, 0), |u|, i)
  }

  /**
   Writes `userInput` into the mask at each match of the left-to-right,
   non-overlapping scan of the word; an empty input changes nothing.
   */
  function UpdateAnswer(s: Stage, userInput: string): (r: Stage)
    requires Valid(s)
    ensures Valid(r)
    ensures r.question == s.question && r.leftAttempts == s.leftAttempts
    ensures |userInput| == 0 ==> r == s
    ensures forall i :: 0 <= i < |r.answer| ==>
      r.answer[i] == (if Revealed(s.question.word, userInput, i) then s.question.word[i] else s.answer[i])
  {
    if |userInput| == 0 then s
    else
      var word := s.question.word;
      RevealCharacters(word, s.answer, userInput);
      s.(answer := Reveal(word, s.answer, userInput, 0))
  }

  /** The guess is longer than the word. */
  predicate IsTooLong(s: Stage, userInput: string) {
    |userInput| > |s.question.word|
  }

  /** The guess occurs in the word (`String.prototype.includes`). */
  predicate IsIncludes(s: Stage, userInput: string) {
    IndexOf(s.question.word, userInput, 0).Some?
  }

  /** The mask equals the word. */
  predicate IsCorrect(s: Stage) {
    s.answer == s.question.word
  }

  /** No attempts remain. */
  predicate IsGameOver(s: Stage) {
    s.leftAttempts == 0
  }

  /** `IsIncludes` is plain substring containment. */
  lemma IncludesIffOccurs(s: Stage, userInput: string)
    ensures IsIncludes(s, userInput) <==> exists p: nat :: OccursAt(s.question.word, userInput, p)
  {
    if p: nat :| OccursAt(s.question.word, userInput, p) {
      IndexOfLeftmost(s.question.word, userInput, 0, p);
    }
  }

  /** A guess longer than the word never occurs in it. */
  lemma TooLongNotIncluded(s: Stage, userInput: string)
    requires IsTooLong(s, userInput)
    ensures !IsIncludes(s, userInput)
  {
  }

  /** Each mask character either stays or becomes the word's character there. */
  lemma UpdateAnswerOnlyReveals(s: Stage, userInput: string)
    requires Valid(s)
    ensures forall i :: 0 <= i < |s.answer| ==>
      UpdateAnswer(s, userInput).answer[i] in {s.answer[i], s.question.word[i]}
  {
  }

  /** A consistent mask stays consistent. */
  lemma UpdateAnswerKeepsConsistent(s: Stage, userInput: string)
    requires Consistent(s)
    ensures Consistent(UpdateAnswer(s, userInput))
  {
  }

  /** Characters already revealed stay revealed. */
  lemma UpdateAnswerKeepsRevealed(s: Stage, userInput: string, i: nat)
    requires Valid(s) && i < |s.answer| && s.answer[i] == s.question.word[i]
    ensures UpdateAnswer(s, userInput).answer[i] == s.question.word[i]
  {
  }

  /** Updating twice with the same guess is the same as updating once. */
  lemma UpdateAnswerIdempotent(s: Stage, userInput: string)
    requires Valid(s)
    ensures UpdateAnswer(UpdateAnswer(s, userInput), userInput) == UpdateAnswer(s, userInput)
  {
  }

  /** A guess that does not occur in the word leaves the stage unchanged. */
  lemma UpdateAnswerMissing(s: Stage, userInput: string)
    requires Valid(s) && !IsIncludes(s, userInput)
    ensures UpdateAnswer(s, userInput) == s
  {
  }

  /** Guessing the whole word solves the stage. */
  lemma UpdateAnswerWholeWord(s: Stage)
    requires Valid(s)
    ensures IsCorrect(UpdateAnswer(s, s.question.word))
  {
    var word := s.question.word;
    var r := UpdateAnswer(s, word);
    if |word| > 0 {
      assert OccursAt(word, word, 0);
      MatchesGreedy(word, word, 0, 0);
      forall i | 0 <= i < |word|
        ensures r.answer[i] == word[i]
      {
        var k :| 0 <= k < |Matches(word, word, 0)| && Matches(word, word, 0)[k] <= 0 < Matches(word, word, 0)[k] + |word|;
        assert Revealed(word, word, i);
      }
    }
  }
}

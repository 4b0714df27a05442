# Hangman game core in Dafny

A model of the word-guessing (hangman) game state machine in `src/app.ts`: the
question queue (`Quiz`), the guessing state of one word (`Stage`) and the game
controller (`Game`) with one iteration of its interactive loop.

- `wrappers.dfy` — `Option` and `Result`.
- `matching.dfy` (`Matching`) — the scan `updateAnswer` performs. It finds the leftmost
  occurrence of the guess from a start index, splices the guess into the mask there,
  and resumes just past the match. `Matches` lists the visited start indices;
  `Reveal` is the loop itself.
- `quizzes.dfy` (`Quizzes`) — `Question`, `Quiz`, and `getNext`. The random index is
  `Math.floor(roll * length)` for a roll in [0, 1).
- `stages.dfy` (`Stages`) — `Stage` with its mask (`answer`) and counter
  (`leftAttempts`), and the stage predicates.
- `games.dfy` (`Games`) — `shouldEnd`, `next`, one loop iteration (`Turn`), the loop
  (`Run`) and its invariant.
- `scenarios.dfy` (`Scenarios`) — worked plays.

Randomness is a parameter: each draw takes a `roll`, the value `Math.random()` would
have returned. Each turn takes the guess text the terminal would have returned.

## Behaviour notes

These are places where the code's behaviour differs from what a reader might expect.
The model follows the code in each case.

- Matches do not overlap. The global regular expression resumes after each match, so
  "aa" on "aaa" reveals only the first two characters and gives `aa_`
  (`Scenarios.NonOverlappingScan`). An every-occurrence reveal would give `aaa`.
- `decrementAttempts` does not clamp at 0. The model proves instead that the loop
  never takes the counter below 0 (`Games.RunInvariant`).
- `getNext` on an empty queue returns `undefined`, and building a `Stage` from it
  throws. The model reports this as `Failure(NoQuestion)` from `NewGame` and `Next`.
  `Games.TurnInvariant` proves that the loop never reaches it.
- Words may be empty. The code does not reject them, and neither does the model.

## Model

| member | source | states |
|---|---|---|
| Quizzes.HasNext | src/app.ts:10-20 | a question remains exactly when the remaining count (`Lefts`, the queue length) is positive |
| Quizzes.RandomIndex | src/app.ts:14 | `Math.floor(roll * length)` is a valid index into a non-empty queue, and 0 for an empty one |
| Quizzes.GetNext | src/app.ts:13-17 | on a non-empty queue returns the question at the random index and leaves the others in order: count down by one, multiset of questions preserved with the drawn one removed; on an empty queue returns nothing and leaves the queue unchanged |
| Quizzes.EveryQuestionReachable | src/app.ts:13-15 | every remaining question is drawn by some roll |
| Stages.NewStage | src/app.ts:63-71 | a fresh stage has a mask of `_` as long as the word, a mask consistent with the word, and 5 attempts |
| Stages.DecrementAttempts | src/app.ts:73-75 | one attempt fewer, with no floor at 0; the mask and question are untouched |
| Matching.IndexOf | src/app.ts:84 | a found index is an occurrence of the guess at or after the start index |
| Matching.IndexOfLeftmost | src/app.ts:84 | the search misses nothing: if the guess occurs at `q`, an occurrence is found at or before `q` |
| Matching.MatchesSound | src/app.ts:79-85 | every index the scan visits (`Matches`, the indices `exec` returns) is a real occurrence, and visited matches do not overlap |
| Matching.MatchesGreedy | src/app.ts:79-85 | the scan skips no occurrence except those overlapping an earlier match: each occurrence starts, or lies inside, a visited match |
| Matching.SpliceRemovesThenInserts | src/app.ts:86 | the mask update is `splice(p, u.length, ...u)`: the characters before `p`, then the guess, then the characters after the removed span of the guess's length |
| Matching.Reveal | src/app.ts:84-89 | the scan loop keeps the mask as long as the word |
| Matching.RevealAt | src/app.ts:84-89 | after the scan from a start index, the character at one index is the word's character if a visited match covers it, and otherwise the mask's |
| Matching.RevealCharacters | src/app.ts:79-89 | after the whole scan, every mask character is the word's character where a visited match covers it, and otherwise unchanged |
| Stages.UpdateAnswer | src/app.ts:76-89 | empty input changes nothing; otherwise exactly the positions under visited matches show the word; length, question and attempts are kept |
| Stages.IncludesIffOccurs | src/app.ts:95-97 | `IsIncludes` holds exactly when the guess occurs somewhere in the word |
| Stages.TooLongNotIncluded | src/app.ts:91-97 | a guess that `IsTooLong` (longer than the word) never occurs in it |
| Stages.UpdateAnswerOnlyReveals | src/app.ts:84-88 | every mask character either stays or becomes the word's character |
| Stages.UpdateAnswerKeepsConsistent | src/app.ts:76-89 | a mask of placeholders and word characters stays so |
| Stages.UpdateAnswerKeepsRevealed | src/app.ts:84-88 | revealed characters stay revealed |
| Stages.UpdateAnswerIdempotent | src/app.ts:79-89 | repeating a guess does not change the mask again |
| Stages.UpdateAnswerMissing | src/app.ts:84-88 | a guess that does not occur in the word leaves the stage unchanged |
| Stages.UpdateAnswerWholeWord | src/app.ts:76-100 | guessing the whole word makes `IsCorrect` (mask equals word) true |
| Games.NewGame | src/app.ts:153-158 | fails exactly on an empty question list; otherwise a running game whose stage is a fresh one (all-placeholder mask, 5 attempts) for one of the questions, and the queue holds exactly the other questions (multiset) |
| Games.Next | src/app.ts:159-181 | a wrong guess costs exactly one attempt and keeps the stage and queue. The game ends exactly when attempts reach 0 or the queue is empty with the word solved, and it then keeps the stage and queue. The end test is `ShouldEnd` (`IsGameOver`, or no question left and `IsCorrect`). Otherwise a correct guess draws a fresh 5-attempt stage for a queued question, and the new queue is the old one minus exactly that question (multiset), so a served question is never served again. It faults only on a correct guess with an unsolved word and an empty queue |
| Games.Turn | src/app.ts:196-224 | the precedence: empty input, solved word, too long, partial hit, miss; a solved word advances through `next(true)` on the updated stage; a partial hit keeps attempts and only updates the mask; every penalty costs exactly one attempt and leaves mask and queue unchanged; only a correct guess can fault, and only on an empty queue |
| Games.Run | src/app.ts:186-225 | a finished game or an exhausted input stream is returned as is, and every reached stage keeps its mask as long as its word |
| Games.NewGameInvariant | src/app.ts:153-158 | the initial state satisfies the loop invariant |
| Games.TurnInvariant | src/app.ts:196-224 | a turn of a running game never draws from an empty queue and keeps the invariant: consistent mask, 0..5 attempts, at least one while running |
| Games.RunInvariant | src/app.ts:188-225 | the loop never faults and attempts never go below 0 |
| Games.HitIsFixpoint | src/app.ts:218-221 | repeating a partial hit is again a partial hit leading to the same state, so the loop need not terminate |
| Scenarios.NonOverlappingScan | src/app.ts:79-89 | "aa" on "aaa" gives `aa_` |
| Scenarios.CatScenario | src/app.ts:196-224 | for "cat": "dog" is a miss (4 left), "cats" is too long (3 left), "at" is a hit (`_at`, 3 left), and "cat" solves the last word and ends the game |

## Left out

- Terminal I/O is not modelled. This covers the `readline` interface, `chalk` colours, `figlet` banners and the `Message` class (src/app.ts:38-62, 105-143). A turn's message is modelled only as its `Verdict`. The closing messages after the loop (src/app.ts:227-232) are output only.
- Input normalisation (src/app.ts:45) is not modelled. It removes spaces and lower-cases the text, and belongs to the terminal adapter. Guesses are taken as already normalised strings.
- The JSON question file (src/app.ts:1, 27) is an external data source. The question list is a parameter.
- Regular-expression metacharacters in a guess (src/app.ts:79) are matched literally. The JavaScript regex engine is foreign code.
- `Math.random` (src/app.ts:14) is a parameter. The floating-point rounding of `roll * length` is treated as exact.
- Strings are sequences of characters. The mismatch between `split('')` (UTF-16 units) and the spread `...userInput` (code points) for characters outside the Basic Multilingual Plane is not modelled.
- The async driver (src/app.ts:182-195, 235-237) is modelled as `Run` over a finite list of guesses. Termination is not claimed, because repeating a partial hit never changes the state.
- The `state.stage === undefined` break (src/app.ts:189) has no counterpart. A stage is always present in the model, and drawing from an empty queue is the explicit `NoQuestion` fault.
- src/3/3-58.ts (an overload exercise on floating-point addition and string concatenation) and src/4/4-34.ts (a visibility-modifier demo that only prints) are not part of this model.

/**
 The question queue (`Quiz`): questions are removed one at a time at a random
 index, so a question once served is never served again.
 */
module Quizzes {
  import opened Wrappers

  /** One question record: the word to guess and the hint shown with it. */
  datatype Question = Question(word: string, hint: string)

  /** The questions not yet served. */
  datatype Quiz = Quiz(questions: seq<Question>)

  /** The outcome of `getNext`: the drawn question (absent on an empty queue) and the remaining queue. */
  datatype Draw = Draw(question: Option<Question>, rest: Quiz)

  /** A value of `Math.random()`: a real number in the half-open interval [0, 1). */
  predicate IsRoll(roll: real) {
    0.0 <= roll < 1.0
  }

  /** `Math.floor(roll * len)`: an index into a non-empty queue, and 0 for an empty one. */
  function RandomIndex(len: nat, roll: real): (i: nat)
    requires IsRoll(roll)
    ensures len > 0 ==> i < len
    ensures len == 0 ==> i == 0
  {
    var x := roll * len as real;
    assert 0.0 <= x;
    assert x < len as real || len == 0 by {
      if len > 0 {
        assert roll * len as real < 1.0 * len as real;
      }
    }
    x.Floor
  }

  /** Number of questions not yet served. */
  function Lefts(q: Quiz): nat {
    |q.questions|
  }

  /** Whether a question remains to be served. */
  function HasNext(q: Quiz): (b: bool)
    ensures b <==> Lefts(q) > 0
  {
    |q.questions| > 0
  }

  /**
   Removes and returns the question at the random index. On an empty queue the
   splice removes nothing and the question is absent.
   */
  function GetNext(q: Quiz, roll: real): (d: Draw)
    requires IsRoll(roll)
    ensures d.question.Some? <==> HasNext(q)
    ensures !HasNext(q) ==> d.rest == q
    ensures HasNext(q) ==>
      var i := RandomIndex(Lefts(q), roll);
      && d.question.value == q.questions[i]
      && d.rest.questions == q.questions[..i] + q.questions[i + 1..]
    ensures HasNext(q) ==> Lefts(d.rest) == Lefts(q) - 1
    ensures HasNext(q) ==> multiset(d.rest.questions) + multiset{d.question.value} == multiset(q.questions)
  {
    var qs := q.questions;
    var i := RandomIndex(|qs|, roll);
    if |qs| == 0 then Draw(None, q)
    else
      assert qs == qs[..i] + [qs[i]] + qs[i + 1..];
      Draw(Some(qs[i]), Quiz(qs[..i] + qs[i + 1..]))
  }

  /** Every remaining question can be drawn: the roll `i / len` selects index `i`. */
  lemma EveryQuestionReachable(q: Quiz, i: nat)
    requires i < Lefts(q)
    ensures IsRoll(i as real / Lefts(q) as real)
    ensures GetNext(q, i as real / Lefts(q) as real).question == Some(q.questions[i])
  {
    RollFor(i, Lefts(q));
  }

  /** The roll `i / len` lies in [0, 1) and scales back to exactly `i`. */
  lemma RollFor(i: nat, len: nat)
    requires i < len
    ensures IsRoll(i as real / len as real)
    ensures RandomIndex(len, i as real / len as real) == i
  {
  }
}

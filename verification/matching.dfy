/**
 The literal, left-to-right, non-overlapping substring scan that `Stage.updateAnswer`
 performs with a global regular expression and repeated `exec` calls: each search
 resumes at the index just past the previous match, so matches never overlap.
 */
module Matching {
  import opened Wrappers

  /** `u` occurs in `word` starting at index `p`. */
  predicate OccursAt(word: string, u: string, p: nat) {
    p + |u| <= |word| && word[p..p + |u|] == u
  }

  /** Index `i` lies inside one of the matches `ms`, each `n` characters long. */
  predicate Covered(ms: seq<nat>, n: nat, i: int) {
    exists k :: 0 <= k < |ms| && ms[k] <= i < ms[k] + n
  }

  /** The first occurrence of `u` in `word` at or after `from`, if any. */
  function IndexOf(word: string, u: string, from: nat): (r: Option<nat>)
    decreases |word| - from
    ensures r.Some? ==> from <= r.value && OccursAt(word, u, r.value)
  {
    if from + |u| > |word| then None
    else if word[from..from + |u|] == u then Some(from)
    else IndexOf(word, u, from + 1)
  }

  /** `IndexOf` misses nothing: given an occurrence at `q`, it finds one at or before `q`. */
  lemma {:induction false} IndexOfLeftmost(word: string, u: string, from: nat, q: nat)
    requires from <= q && OccursAt(word, u, q)
    decreases q - from
    ensures IndexOf(word, u, from).Some? && IndexOf(word, u, from).value <= q
  {
    if word[from..from + |u|] != u {
      IndexOfLeftmost(word, u, from + 1, q);
    }
  }

  /**
   The start indices the scan visits, in order: the leftmost occurrence at or after
   `from`, then the leftmost occurrence after the end of that one, and so on.
   */
  function Matches(word: string, u: string, from: nat): seq<nat>
    requires |u| > 0
    decreases |word| - from
  {
    match IndexOf(word, u, from)
    case None => []
    case Some(p) => [p] + Matches(word, u, p + |u|)
  }

  /** Every visited index is a genuine occurrence at or after `from`, and the visited matches do not overlap. */
  lemma {:induction false} MatchesSound(word: string, u: string, from: nat)
    requires |u| > 0
    decreases |word| - from
    ensures forall k :: 0 <= k < |Matches(word, u, from)| ==>
      from <= Matches(word, u, from)[k] && OccursAt(word, u, Matches(word, u, from)[k])
    ensures forall j, k :: 0 <= j < k < |Matches(word, u, from)| ==>
      Matches(word, u, from)[j] + |u| <= Matches(word, u, from)[k]
  {
    match IndexOf(word, u, from)
    case None =>
    case Some(p) =>
      var rest := Matches(word, u, p + |u|);
      assert Matches(word, u, from) == [p] + rest;
      MatchesSound(word, u, p + |u|);
      SoundStep(word, u, from, p, rest);
      SpacedStep(u, p, rest);
  }

  lemma SoundStep(word: string, u: string, from: nat, p: nat, rest: seq<nat>)
    requires from <= p && OccursAt(word, u, p)
    requires forall k :: 0 <= k < |rest| ==> p + |u| <= rest[k] && OccursAt(word, u, rest[k])
    ensures forall k :: 0 <= k < |[p] + rest| ==> from <= ([p] + rest)[k] && OccursAt(word, u, ([p] + rest)[k])
  {
  }

  lemma SpacedStep(u: string, p: nat, rest: seq<nat>)
    requires forall j, k :: 0 <= j < k < |rest| ==> rest[j] + |u| <= rest[k]
    requires forall k :: 0 <= k < |rest| ==> p + |u| <= rest[k]
    ensures forall j, k :: 0 <= j < k < |[p] + rest| ==> ([p] + rest)[j] + |u| <= ([p] + rest)[k]
  {
  }

  /** Nothing is skipped: an occurrence at or after `from` starts, or lies inside, a visited match. */
  lemma {:induction false} MatchesGreedy(word: string, u: string, from: nat, q: nat)
    requires |u| > 0 && from <= q && OccursAt(word, u, q)
    decreases q - from
    ensures Covered(Matches(word, u, from), |u|, q)
  {
    IndexOfLeftmost(word, u, from, q);
    var p := IndexOf(word, u, from).value;
    var rest := Matches(word, u, p + |u|);
    var ms := [p] + rest;
    assert Matches(word, u, from) == ms;
    if q < p + |u| {
      assert ms[0] <= q < ms[0] + |u|;
    } else {
      MatchesGreedy(word, u, p + |u|, q);
      var k :| 0 <= k < |rest| && rest[k] <= q < rest[k] + |u|;
      assert ms[k + 1] == rest[k];
    }
  }

  /** `a` with the characters at `p .. p + |u|` replaced by `u` (`Array.prototype.splice`). */
  function Splice(a: string, p: nat, u: string): (r: string)
    requires p + |u| <= |a|
    ensures |r| == |a|
    ensures forall i :: p <= i < p + |u| ==> r[i] == u[i - p]
    ensures forall i :: 0 <= i < |a| && !(p <= i < p + |u|) ==> r[i] == a[i]
  {
    seq(|a|, i requires 0 <= i < |a| => if p <= i < p + |u| then u[i - p] else a[i])
  }

  /** `Splice` is `Array.prototype.splice(p, |u|, ...u)`: remove `|u|` characters at `p`, then insert `u` there. */
  lemma SpliceRemovesThenInserts(a: string, p: nat, u: string)
    requires p + |u| <= |a|
    ensures Splice(a, p, u) == a[..p] + u + a[p + |u|..]
  {
  }

  /**
   The scan loop itself: find the next match from `from`, splice `u` into the
   mask there, and resume just past the match.
   */
  function Reveal(word: string, mask: string, u: string, from: nat): (r: string)
    requires |u| > 0 && |mask| == |word|
    decreases |word| - from
    ensures |r| == |word|
  {
    match IndexOf(word, u, from)
    case None => mask
    case Some(p) => Reveal(word, Splice(mask, p, u), u, p + |u|)
  }

  /** At index `i`, the scan leaves the word's character if a visited match covers `i`, and the mask's otherwise. */
  lemma {:induction false} RevealAt(word: string, mask: string, u: string, from: nat, i: nat)
    requires |u| > 0 && |mask| == |word| && i < |word|
    decreases |word| - from
    ensures Reveal(word, mask, u, from)[i] == (if Covered(Matches(word, u, from), |u|, i) then word[i] else mask[i])
  {
    match IndexOf(word, u, from)
    case None =>
      assert Matches(word, u, from) == [];
    case Some(p) =>
      var spliced := Splice(mask, p, u);
      var rest := Matches(word, u, p + |u|);
      assert Matches(word, u, from) == [p] + rest;
      assert Reveal(word, mask, u, from) == Reveal(word, spliced, u, p + |u|);
      RevealAt(word, spliced, u, p + |u|, i);
      CoveredSplice(word, mask, u, p, rest, i);
  }

  /**
   Splicing the match at `p` and then writing the word under `rest` shows, at `i`,
   what writing the word under `[p] + rest` shows.
   */
  lemma CoveredSplice(word: string, mask: string, u: string, p: nat, rest: seq<nat>, i: nat)
    requires |mask| == |word| && OccursAt(word, u, p) && i < |word|
    ensures (if Covered(rest, |u|, i) then word[i] else Splice(mask, p, u)[i])
         == (if Covered([p] + rest, |u|, i) then word[i] else mask[i])
  {
    var ms := [p] + rest;
    if p <= i < p + |u| {
      assert Covered(ms, |u|, i) by { assert ms[0] <= i < ms[0] + |u|; }
      assert Splice(mask, p, u)[i] == u[i - p] == word[p..p + |u|][i - p];
    } else {
      assert Covered(ms, |u|, i) <==> Covered(rest, |u|, i) by {
        if Covered(ms, |u|, i) {
          var k :| 0 <= k < |ms| && ms[k] <= i < ms[k] + |u|;
          assert rest[k - 1] == ms[k];
        }
        if Covered(rest, |u|, i) {
          var k :| 0 <= k < |rest| && rest[k] <= i < rest[k] + |u|;
          assert ms[k + 1] == rest[k];
        }
      }
    }
  }

  /** What the scan writes: the word's characters under the visited matches, the mask everywhere else. */
  lemma RevealCharacters(word: string, mask: string, u: string)
    requires |u| > 0 && |mask| == |word|
    ensures forall i :: 0 <= i < |word| ==>
      Reveal(word, mask, u, 0)[i] == (if Covered(Matches(word, u, 0), |u|, i) then word[i] else mask[i])
  {
    forall i | 0 <= i < |word|
      ensures Reveal(word, mask, u, 0)[i] == (if Covered(Matches(word, u, 0), |u|, i) then word[i] else mask[i])
    {
      RevealAt(word, mask, u, 0, i);
    }
  }
}

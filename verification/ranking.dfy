/** Choosing the winning guess: `guess_results.sort(key=score, reverse=True)`
    followed by taking the head. Python's sort is stable, also with
    `reverse=True`, and a stable sort has exactly one possible output, so a
    stable insertion sort describes it. */
module Ranking {
  import opened Bits

  /** One entry of `guess_results`: a key-byte guess and its score. */
  datatype GuessResult = GuessResult(guess: Byte, score: real)

  /** Scores never increase along the sequence. */
  predicate SortedDesc(s: seq<GuessResult>)
  {
    forall i, j :: 0 <= i < j < |s| ==> s[i].score >= s[j].score
  }

  /** Entries with equal scores appear in ascending guess order. */
  predicate TiesAscending(s: seq<GuessResult>)
  {
    forall i, j :: 0 <= i < j < |s| && s[i].score == s[j].score ==> s[i].guess < s[j].guess
  }

  /** Guesses strictly increase along the sequence, as in the order the
      attack loop produces them. */
  predicate AscendingGuesses(s: seq<GuessResult>)
  {
    forall i, j :: 0 <= i < j < |s| ==> s[i].guess < s[j].guess
  }

  /** Places `x` after every entry whose score is at least its own. */
  function Insert(x: GuessResult, s: seq<GuessResult>): (r: seq<GuessResult>)
    ensures |r| == |s| + 1
    ensures multiset(r) == multiset(s) + multiset{x}
  {
    if |s| == 0 then [x]
    else if s[0].score >= x.score then
      assert s == [s[0]] + s[1..];
      [s[0]] + Insert(x, s[1..])
    else [x] + s
  }

  /** An entry of `Insert(x, s)` is `x` or an entry of `s`. */
  lemma InsertElement(x: GuessResult, s: seq<GuessResult>, k: nat)
    requires k < |Insert(x, s)|
    ensures Insert(x, s)[k] == x || Insert(x, s)[k] in s
  {
    var r := Insert(x, s);
    assert r[k] in multiset(r);
  }

  /** Inserting into a sorted sequence keeps it sorted. */
  lemma {:induction false} InsertSorted(x: GuessResult, s: seq<GuessResult>)
    requires SortedDesc(s)
    ensures SortedDesc(Insert(x, s))
  {
    if |s| > 0 && s[0].score >= x.score {
      var tail := s[1..];
      InsertSorted(x, tail);
      var rest := Insert(x, tail);
      forall k | 0 <= k < |rest|
        ensures rest[k].score <= s[0].score
      {
        InsertElement(x, tail, k);
        if rest[k] != x {
          var m :| 0 <= m < |tail| && tail[m] == rest[k];
          assert s[m + 1] == rest[k];
        }
      }
      assert Insert(x, s) == [s[0]] + rest;
    }
  }

  /** Inserting an entry whose guess exceeds every guess of `s` keeps equal
      scores in ascending guess order. */
  lemma {:induction false} InsertKeepsTies(x: GuessResult, s: seq<GuessResult>)
    requires SortedDesc(s) && TiesAscending(s)
    requires forall e :: e in s ==> e.guess < x.guess
    ensures TiesAscending(Insert(x, s))
  {
    if |s| > 0 && s[0].score >= x.score {
      var tail := s[1..];
      InsertKeepsTies(x, tail);
      var rest := Insert(x, tail);
      forall k | 0 <= k < |rest| && rest[k].score == s[0].score
        ensures s[0].guess < rest[k].guess
      {
        InsertElement(x, tail, k);
        if rest[k] != x {
          var m :| 0 <= m < |tail| && tail[m] == rest[k];
          assert s[m + 1] == rest[k];
        }
      }
      assert Insert(x, s) == [s[0]] + rest;
    }
  }

  /** The stable descending sort of `guess_results` by score: a permutation,
      sorted by score, and ties kept in their original (ascending guess)
      order. */
  function SortDesc(s: seq<GuessResult>): (r: seq<GuessResult>)
    ensures |r| == |s|
    ensures multiset(r) == multiset(s)
    ensures SortedDesc(r)
    ensures AscendingGuesses(s) ==> TiesAscending(r)
  {
    if |s| == 0 then []
    else
      var init := s[..|s| - 1];
      var last := s[|s| - 1];
      assert s == init + [last];
      var sortedInit := SortDesc(init);
      InsertSorted(last, sortedInit);
      SortDescTies(init, last, sortedInit);
      Insert(last, sortedInit)
  }

  /** The stability step of `SortDesc`: the last entry carries the largest
      guess, so inserting it keeps ties in ascending guess order. */
  lemma SortDescTies(init: seq<GuessResult>, last: GuessResult, sortedInit: seq<GuessResult>)
    requires multiset(sortedInit) == multiset(init)
    requires SortedDesc(sortedInit)
    requires AscendingGuesses(init) ==> TiesAscending(sortedInit)
    ensures AscendingGuesses(init + [last]) ==> TiesAscending(Insert(last, sortedInit))
  {
    if AscendingGuesses(init + [last]) {
      var s := init + [last];
      assert AscendingGuesses(init) by {
        assert forall k :: 0 <= k < |init| ==> init[k] == s[k];
      }
      forall e | e in sortedInit
        ensures e.guess < last.guess
      {
        assert e in multiset(init);
        var m :| 0 <= m < |init| && init[m] == e;
        assert s[m] == e && s[|init|] == last;
      }
      InsertKeepsTies(last, sortedInit);
    }
  }

  /** `guess_results[0]` after the sort: a result with the highest score, and
      the one with the lowest guess among those that share it. */
  function BestGuess(results: seq<GuessResult>): (w: GuessResult)
    requires |results| > 0
    ensures w in results
    ensures forall e :: e in results ==> e.score <= w.score
    ensures AscendingGuesses(results) ==>
      forall e :: e in results && e.score == w.score ==> w.guess <= e.guess
  {
    var sorted := SortDesc(results);
    assert sorted[0] in multiset(sorted);
    assert forall e :: e in results ==> e in multiset(sorted);
    assert forall e :: e in sorted && e != sorted[0] ==> e.score <= sorted[0].score;
    sorted[0]
  }

  /** Reference definition of the winner: the first index whose score is
      strictly greater than every earlier one and no smaller than any. */
  function FirstMaxIndex(s: seq<GuessResult>): (r: nat)
    requires |s| > 0
    ensures r < |s|
    ensures forall k :: 0 <= k < |s| ==> s[k].score <= s[r].score
    ensures forall k :: 0 <= k < r ==> s[k].score < s[r].score
  {
    if |s| == 1 then 0
    else
      var j := FirstMaxIndex(s[..|s| - 1]);
      assert forall k :: 0 <= k < |s| - 1 ==> s[..|s| - 1][k] == s[k];
      if s[|s| - 1].score > s[j].score then |s| - 1 else j
  }

  /** The sort-then-take-head selection picks the first maximal entry. */
  lemma BestGuessIsFirstMax(results: seq<GuessResult>)
    requires |results| > 0
    requires AscendingGuesses(results)
    ensures BestGuess(results) == results[FirstMaxIndex(results)]
  {
  }
}

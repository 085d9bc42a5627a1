/** The key-recovery loop: for every key position, score all 256 guesses,
    keep the best one, and assemble the sixteen winners into the key. */
module Attack {
  import opened Bits
  import opened Results
  import opened Leakage
  import opened Traces
  import opened Scoring
  import opened Ranking

  /** The key is split into sixteen one-byte subkeys. */
  const KeyLength: nat := 16

  /** The exception the loop raises for key position `subkey`, if any, in the
      order it reaches them while handling guess 0: the plaintext index, then
      the shape of the traces, then the maximum over the samples. */
  function AttackError(traces: seq<seq<real>>, plaintexts: seq<seq<Byte>>, subkey: nat): Option<Error>
  {
    if !HasByte(plaintexts, subkey) then Some(SubkeyIndex)
    else if !(|traces| > 0 && Rectangular(traces)) then Some(NotTwoDimensional)
    else if |traces[0]| == 0 then Some(EmptyMax)
    else None
  }

  /** One guess: build the hypothesis, then take the largest
      absolute correlation with any sample column. */
  function ScoreGuess(sbox: seq<Byte>, corr: (seq<int>, seq<real>) -> real, traces: seq<seq<real>>,
                      plaintexts: seq<seq<Byte>>, subkey: nat, g: Byte): (r: Result<real>)
    requires ValidSbox(sbox)
    ensures r.Success? <==> AttackError(traces, plaintexts, subkey) == None
    ensures r.Failure? ==> AttackError(traces, plaintexts, subkey) == Some(r.error)
    ensures r.Success? ==> r.value >= 0.0
  {
    var hyp :- Hypothesis(sbox, plaintexts, subkey, g);
    GuessScore(corr, hyp, traces)
  }

  /** The score of a guess is the largest absolute correlation between its
      hypothesis and any sample column: no column correlates more strongly,
      and some column correlates exactly that strongly. */
  lemma ScoreGuessIsMaxCorrelation(sbox: seq<Byte>, corr: (seq<int>, seq<real>) -> real,
                                   traces: seq<seq<real>>, plaintexts: seq<seq<Byte>>, subkey: nat, g: Byte)
    requires ValidSbox(sbox)
    requires AttackError(traces, plaintexts, subkey) == None
    ensures ScoreGuess(sbox, corr, traces, plaintexts, subkey, g).Success?
    ensures forall idx :: 0 <= idx < |traces[0]| ==>
      Abs(corr(Hypothesis(sbox, plaintexts, subkey, g).value, Column(traces, idx)))
        <= ScoreGuess(sbox, corr, traces, plaintexts, subkey, g).value
    ensures exists idx ::
      (0 <= idx < |traces[0]| &&
       Abs(corr(Hypothesis(sbox, plaintexts, subkey, g).value, Column(traces, idx)))
         == ScoreGuess(sbox, corr, traces, plaintexts, subkey, g).value)
  {
  }

  /** `guess_results` after guesses `0 .. n-1`: one pair per guess, in guess
      order, each holding that guess's score; the first guess whose scoring
      raises stops the loop with its exception. */
  function Tabulate(score: Byte -> Result<real>, n: nat): (r: Result<seq<GuessResult>>)
    requires n <= 256
    ensures r.Success? <==> forall g :: 0 <= g < n ==> score(g).Success?
    ensures r.Failure? ==>
      exists g :: 0 <= g < n && score(g) == Failure(r.error) &&
        forall h :: 0 <= h < g ==> score(h).Success?
    ensures r.Success? ==> |r.value| == n
    ensures r.Success? ==> forall g :: 0 <= g < n ==> r.value[g] == GuessResult(g, score(g).value)
  {
    if n == 0 then Success([])
    else
      var previous :- Tabulate(score, n - 1);
      var s :- score(n - 1);
      var table := previous + [GuessResult(n - 1, s)];
      assert forall g :: 0 <= g < n - 1 ==> table[g] == previous[g];
      Success(table)
  }

  /** Tables built from the same scores are the same. */
  lemma {:induction false} TabulateSameScores(f1: Byte -> Result<real>, f2: Byte -> Result<real>, n: nat)
    requires n <= 256
    requires forall g: Byte :: f1(g) == f2(g)
    ensures Tabulate(f1, n) == Tabulate(f2, n)
  {
    if n > 0 {
      TabulateSameScores(f1, f2, n - 1);
    }
  }

  /** When every guess succeeds or fails together, with one common error,
      the full table succeeds or fails the same way. */
  lemma TableErrors(score: Byte -> Result<real>, e: Option<Error>)
    requires forall g: Byte :: score(g).Success? <==> e == None
    requires forall g: Byte :: score(g).Failure? ==> e == Some(score(g).error)
    ensures Tabulate(score, 256).Success? <==> e == None
    ensures Tabulate(score, 256).Failure? ==> e == Some(Tabulate(score, 256).error)
  {
    var t := Tabulate(score, 256);
    if t.Failure? {
      var g :| 0 <= g < 256 && score(g) == Failure(t.error);
    } else {
      assert score(0).Success?;
    }
  }

  /** The head of the sorted full table holds the best score of all 256
      guesses, and no lower guess reaches it. */
  lemma BestOfTable(score: Byte -> Result<real>, results: seq<GuessResult>)
    requires |results| == 256
    requires forall g :: 0 <= g < 256 ==> score(g).Success? && results[g] == GuessResult(g, score(g).value)
    ensures score(BestGuess(results).guess) == Success(BestGuess(results).score)
    ensures forall g: Byte :: score(g).value <= BestGuess(results).score
    ensures forall g: Byte :: g < BestGuess(results).guess ==> score(g).value < BestGuess(results).score
  {
    assert AscendingGuesses(results);
    var w := BestGuess(results);
    forall g: Byte
      ensures score(g).value <= w.score
      ensures g < w.guess ==> score(g).value < w.score
    {
      assert results[g] in results;
    }
  }

  /** `w` wins key position `subkey`: it carries its own guess's score, no
      guess scores higher, and every lower guess scores strictly less. */
  predicate Wins(sbox: seq<Byte>, corr: (seq<int>, seq<real>) -> real, traces: seq<seq<real>>,
                 plaintexts: seq<seq<Byte>>, subkey: nat, w: GuessResult)
    requires ValidSbox(sbox)
  {
    ScoreGuess(sbox, corr, traces, plaintexts, subkey, w.guess) == Success(w.score) &&
    (forall g: Byte :: ScoreGuess(sbox, corr, traces, plaintexts, subkey, g).Success? &&
      ScoreGuess(sbox, corr, traces, plaintexts, subkey, g).value <= w.score) &&
    (forall g: Byte :: g < w.guess ==>
      ScoreGuess(sbox, corr, traces, plaintexts, subkey, g).Success? &&
      ScoreGuess(sbox, corr, traces, plaintexts, subkey, g).value < w.score)
  }

  /** The head of the sorted `guess_results` of one key position wins it. */
  lemma TableWins(sbox: seq<Byte>, corr: (seq<int>, seq<real>) -> real, traces: seq<seq<real>>,
                  plaintexts: seq<seq<Byte>>, subkey: nat, results: seq<GuessResult>)
    requires ValidSbox(sbox)
    requires |results| == 256
    requires forall g :: 0 <= g < 256 ==>
      ScoreGuess(sbox, corr, traces, plaintexts, subkey, g).Success? &&
      results[g] == GuessResult(g, ScoreGuess(sbox, corr, traces, plaintexts, subkey, g).value)
    ensures Wins(sbox, corr, traces, plaintexts, subkey, BestGuess(results))
  {
    var score := (g: Byte) => ScoreGuess(sbox, corr, traces, plaintexts, subkey, g);
    assert forall g: Byte :: score(g) == ScoreGuess(sbox, corr, traces, plaintexts, subkey, g);
    BestOfTable(score, results);
  }

  /** The winner for one key position: its score is the highest of all 256
      guesses, and every lower guess scores strictly less. */
  function AttackByte(sbox: seq<Byte>, corr: (seq<int>, seq<real>) -> real, traces: seq<seq<real>>,
                      plaintexts: seq<seq<Byte>>, subkey: nat): (r: Result<GuessResult>)
    requires ValidSbox(sbox)
    ensures r.Success? <==> AttackError(traces, plaintexts, subkey) == None
    ensures r.Failure? ==> AttackError(traces, plaintexts, subkey) == Some(r.error)
    ensures r.Success? ==> Wins(sbox, corr, traces, plaintexts, subkey, r.value)
  {
    var score := (g: Byte) => ScoreGuess(sbox, corr, traces, plaintexts, subkey, g);
    TableErrors(score, AttackError(traces, plaintexts, subkey));
    var results :- Tabulate(score, 256);
    TableWins(sbox, corr, traces, plaintexts, subkey, results);
    Success(BestGuess(results))
  }

  /** `key_guess` built from the per-position outcomes in position order:
      each winner's guess is appended, and the first position that raised
      stops the loop with its exception. */
  function Assemble(winners: seq<Result<GuessResult>>): (r: Result<seq<Byte>>)
    ensures r.Success? <==> forall i :: 0 <= i < |winners| ==> winners[i].Success?
    ensures r.Success? ==> |r.value| == |winners|
    ensures r.Success? ==> forall i :: 0 <= i < |winners| ==> r.value[i] == winners[i].value.guess
    ensures r.Failure? ==>
      exists i :: 0 <= i < |winners| && winners[i] == Failure(r.error) &&
        forall j :: 0 <= j < i ==> winners[j].Success?
  {
    if |winners| == 0 then Success([])
    else
      var init := winners[..|winners| - 1];
      assert forall i :: 0 <= i < |init| ==> init[i] == winners[i];
      var previous :- Assemble(init);
      var winner :- winners[|winners| - 1];
      Success(previous + [winner.guess])
  }

  /** Every position up to `n` is free of exceptions exactly when every
      plaintext reaches position `n - 1` and the traces carry samples. */
  lemma {:induction false} NoErrorBelow(traces: seq<seq<real>>, plaintexts: seq<seq<Byte>>, n: nat)
    requires n > 0
    ensures (forall i :: 0 <= i < n ==> AttackError(traces, plaintexts, i) == None)
        <==> HasByte(plaintexts, n - 1) && Scorable(traces)
  {
    if forall i :: 0 <= i < n ==> AttackError(traces, plaintexts, i) == None {
      assert AttackError(traces, plaintexts, n - 1) == None;
    }
    if HasByte(plaintexts, n - 1) && Scorable(traces) {
      forall i | 0 <= i < n
        ensures AttackError(traces, plaintexts, i) == None
      {
        assert HasByte(plaintexts, i);
      }
    }
  }

  /** Per-position outcomes that raise exactly as the loop does for those
      positions. */
  predicate OutcomesMatchErrors(traces: seq<seq<real>>, plaintexts: seq<seq<Byte>>,
                                winners: seq<Result<GuessResult>>)
  {
    forall i :: 0 <= i < |winners| ==>
      (winners[i].Success? <==> AttackError(traces, plaintexts, i) == None) &&
      (winners[i].Failure? ==> AttackError(traces, plaintexts, i) == Some(winners[i].error))
  }

  /** Assembling outcomes that raise as the loop does succeeds exactly when
      every plaintext reaches the last position and the traces carry samples;
      otherwise it reports the error of position 0 when there is one, and the
      `IndexError` of a later position when there is not. */
  lemma AssembleErrors(traces: seq<seq<real>>, plaintexts: seq<seq<Byte>>, winners: seq<Result<GuessResult>>)
    requires |winners| > 0
    requires OutcomesMatchErrors(traces, plaintexts, winners)
    ensures Assemble(winners).Success? <==> HasByte(plaintexts, |winners| - 1) && Scorable(traces)
    ensures Assemble(winners).Failure? ==>
      Assemble(winners).error
        == (if AttackError(traces, plaintexts, 0).Some? then AttackError(traces, plaintexts, 0).value
            else SubkeyIndex)
  {
    NoErrorBelow(traces, plaintexts, |winners|);
    var r := Assemble(winners);
    if r.Failure? {
      var i :| 0 <= i < |winners| && winners[i] == Failure(r.error) &&
        forall j :: 0 <= j < i ==> winners[j].Success?;
      if i > 0 {
        assert winners[0].Success?;
      }
    }
  }

  /** The per-position outcomes of the loop, position `i` at index `i`. */
  function Winners(sbox: seq<Byte>, corr: (seq<int>, seq<real>) -> real, traces: seq<seq<real>>,
                   plaintexts: seq<seq<Byte>>): seq<Result<GuessResult>>
    requires ValidSbox(sbox)
  {
    seq(KeyLength, i requires 0 <= i => AttackByte(sbox, corr, traces, plaintexts, i))
  }

  /** The whole attack: sixteen bytes, byte `i` being the winner of position
      `i`. */
  function RecoverKey(sbox: seq<Byte>, corr: (seq<int>, seq<real>) -> real, traces: seq<seq<real>>,
                      plaintexts: seq<seq<Byte>>): (r: Result<seq<Byte>>)
    requires ValidSbox(sbox)
    ensures r.Success? ==> |r.value| == KeyLength
    ensures r.Success? ==>
      forall i :: 0 <= i < KeyLength ==>
        AttackByte(sbox, corr, traces, plaintexts, i).Success? &&
        r.value[i] == AttackByte(sbox, corr, traces, plaintexts, i).value.guess
  {
    var winners := Winners(sbox, corr, traces, plaintexts);
    assert |winners| == KeyLength;
    assert forall i :: 0 <= i < KeyLength ==> winners[i] == AttackByte(sbox, corr, traces, plaintexts, i);
    Assemble(winners)
  }

  /** The attack raises exactly when some plaintext has fewer than sixteen
      bytes or the traces are not a matrix with at least one sample; the
      exception is that of position 0 if that position raises, and otherwise
      the `IndexError` of a later position. */
  lemma RecoverKeyErrors(sbox: seq<Byte>, corr: (seq<int>, seq<real>) -> real, traces: seq<seq<real>>,
                         plaintexts: seq<seq<Byte>>)
    requires ValidSbox(sbox)
    ensures RecoverKey(sbox, corr, traces, plaintexts).Success?
        <==> HasByte(plaintexts, KeyLength - 1) && Scorable(traces)
    ensures RecoverKey(sbox, corr, traces, plaintexts).Failure? ==>
      RecoverKey(sbox, corr, traces, plaintexts).error
        == (if AttackError(traces, plaintexts, 0).Some? then AttackError(traces, plaintexts, 0).value
            else SubkeyIndex)
  {
    var winners := Winners(sbox, corr, traces, plaintexts);
    assert OutcomesMatchErrors(traces, plaintexts, winners) by {
      forall i | 0 <= i < KeyLength
        ensures winners[i] == AttackByte(sbox, corr, traces, plaintexts, i)
      {
      }
    }
    AssembleErrors(traces, plaintexts, winners);
  }

  /** Plaintext sets that agree on byte `subkey` of every plaintext. */
  predicate SameByteColumn(p1: seq<seq<Byte>>, p2: seq<seq<Byte>>, subkey: nat)
  {
    |p1| == |p2| &&
    forall t :: 0 <= t < |p1| ==> subkey < |p1[t]| && subkey < |p2[t]| && p1[t][subkey] == p2[t][subkey]
  }

  /** Divide and conquer: the hypothesis for position `subkey` reads only byte
      `subkey` of each plaintext. */
  lemma {:induction false} HypothesisLocal(sbox: seq<Byte>, p1: seq<seq<Byte>>, p2: seq<seq<Byte>>,
                                           subkey: nat, g: Byte)
    requires ValidSbox(sbox)
    requires SameByteColumn(p1, p2, subkey)
    ensures Hypothesis(sbox, p1, subkey, g) == Hypothesis(sbox, p2, subkey, g)
  {
    var h1 := Hypothesis(sbox, p1, subkey, g).value;
    var h2 := Hypothesis(sbox, p2, subkey, g).value;
    assert HasByte(p1, subkey) && HasByte(p2, subkey);
    assert |h1| == |h2|;
    assert forall t :: 0 <= t < |h1| ==> h1[t] == h2[t];
    assert h1 == h2;
  }

  /** The score of a guess at position `subkey` reads only byte `subkey` of
      each plaintext. */
  lemma ScoreGuessLocal(sbox: seq<Byte>, corr: (seq<int>, seq<real>) -> real, traces: seq<seq<real>>,
                        p1: seq<seq<Byte>>, p2: seq<seq<Byte>>, subkey: nat, g: Byte)
    requires ValidSbox(sbox)
    requires SameByteColumn(p1, p2, subkey)
    ensures ScoreGuess(sbox, corr, traces, p1, subkey, g) == ScoreGuess(sbox, corr, traces, p2, subkey, g)
  {
    HypothesisLocal(sbox, p1, p2, subkey, g);
  }

  /** The winner of position `subkey` depends on the plaintexts only through
      their byte `subkey`: other positions play no part in it. */
  lemma AttackByteLocal(sbox: seq<Byte>, corr: (seq<int>, seq<real>) -> real, traces: seq<seq<real>>,
                        p1: seq<seq<Byte>>, p2: seq<seq<Byte>>, subkey: nat)
    requires ValidSbox(sbox)
    requires SameByteColumn(p1, p2, subkey)
    ensures AttackByte(sbox, corr, traces, p1, subkey) == AttackByte(sbox, corr, traces, p2, subkey)
  {
    var score1 := (g: Byte) => ScoreGuess(sbox, corr, traces, p1, subkey, g);
    var score2 := (g: Byte) => ScoreGuess(sbox, corr, traces, p2, subkey, g);
    forall g: Byte
      ensures score1(g) == score2(g)
    {
      ScoreGuessLocal(sbox, corr, traces, p1, p2, subkey, g);
    }
    TabulateSameScores(score1, score2, 256);
  }
}

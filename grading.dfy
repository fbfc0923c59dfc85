/**
 * The per-question verdict shown on the results page: free answers matched
 * after normalisation, exactly or by word recall, and choice questions by
 * the set of selected options.
 */
module Grading {
  import opened Text
  import opened WordSimilarity
  import opened Questions

  /** `[ans.lower().strip() for ans in user if ans.strip()]`: the non-blank answers, normalised, in order. */
  function NonBlankNormalized(user: seq<string>): (r: seq<string>)
    ensures |r| <= |user|
  {
    if user == [] then []
    else if IsBlank(user[0]) then NonBlankNormalized(user[1..])
    else [Normalize(user[0])] + NonBlankNormalized(user[1..])
  }

  /** What `NonBlankNormalized` keeps: the normal form of each non-blank answer, and nothing else. */
  lemma {:induction false} NonBlankNormalizedMembers(user: seq<string>, x: string)
    ensures x in NonBlankNormalized(user) <==> exists u :: u in user && !IsBlank(u) && x == Normalize(u)
    decreases |user|
  {
    if user != [] {
      NonBlankNormalizedMembers(user[1..], x);
      assert forall u :: u in user <==> u == user[0] || u in user[1..];
    }
  }

  /** `[c.lower().strip() for c in correct]`. */
  function NormalizeAll(correct: seq<string>): (r: seq<string>)
    ensures |r| == |correct|
    ensures forall i :: 0 <= i < |correct| ==> r[i] == Normalize(correct[i])
  {
    seq(|correct|, i requires 0 <= i < |correct| => Normalize(correct[i]))
  }

  /** The test the verdict applies to one (answer, correct answer) pair. */
  predicate PairMatches(ans: string, c: string, cs: seq<string>) {
    ans in cs || AtLeastFourFifths(Similarity(ans, c))
  }

  /** The inner `for correct in correct_normalized` of the generator, for one answer. */
  predicate AnyCorrectMatches(ans: string, rest: seq<string>, cs: seq<string>)
    decreases |rest|
  {
    |rest| > 0 && (PairMatches(ans, rest[0], cs) || AnyCorrectMatches(ans, rest[1..], cs))
  }

  /** `any(... for ans in us for correct in cs)`. */
  predicate AnyPairMatches(us: seq<string>, cs: seq<string>)
    decreases |us|
  {
    |us| > 0 && (AnyCorrectMatches(us[0], cs, cs) || AnyPairMatches(us[1..], cs))
  }

  /** The free-answer verdict: false unless some answer is non-blank, and then whether some pair matches. */
  predicate FreeAnswerCorrect(user: seq<string>, correct: seq<string>) {
    var us := NonBlankNormalized(user);
    var cs := NormalizeAll(correct);
    if |us| > 0 then AnyPairMatches(us, cs) else false
  }

  function ToSet(s: seq<string>): (r: set<string>) {
    set x | x in s
  }

  /** The multiple-choice verdict: `set(user) == set(correct)`. */
  predicate ChoiceCorrect(user: seq<string>, correct: seq<string>) {
    ToSet(user) == ToSet(correct)
  }

  /** The verdict for one question: free answers by `FreeAnswerCorrect`, every other type by `ChoiceCorrect`. */
  predicate Grade(q: Question, user: seq<string>) {
    if q.qtype == FreeAnswer then FreeAnswerCorrect(user, q.correct) else ChoiceCorrect(user, q.correct)
  }

  lemma {:induction false} AnyCorrectMatchesExists(ans: string, rest: seq<string>, cs: seq<string>)
    ensures AnyCorrectMatches(ans, rest, cs) <==> exists c :: c in rest && PairMatches(ans, c, cs)
    decreases |rest|
  {
    if |rest| > 0 {
      AnyCorrectMatchesExists(ans, rest[1..], cs);
      assert forall c :: c in rest <==> c == rest[0] || c in rest[1..];
    }
  }

  lemma {:induction false} AnyPairMatchesExists(us: seq<string>, cs: seq<string>)
    ensures AnyPairMatches(us, cs) <==> exists a, c :: a in us && c in cs && PairMatches(a, c, cs)
    decreases |us|
  {
    if |us| > 0 {
      AnyPairMatchesExists(us[1..], cs);
      AnyCorrectMatchesExists(us[0], cs, cs);
      assert forall a :: a in us <==> a == us[0] || a in us[1..];
    }
  }

  /** One (answer, correct answer) pair matches after normalisation, exactly or by similarity. */
  predicate NormalMatch(u: string, c: string) {
    Normalize(u) == Normalize(c) || AtLeastFourFifths(Similarity(Normalize(u), Normalize(c)))
  }

  lemma NormalizeAllMembers(correct: seq<string>, x: string)
    ensures x in NormalizeAll(correct) <==> exists c :: c in correct && x == Normalize(c)
  {
    var cs := NormalizeAll(correct);
    if x in cs {
      var j :| 0 <= j < |cs| && cs[j] == x;
      assert correct[j] in correct;
    }
    if exists c :: c in correct && x == Normalize(c) {
      var c :| c in correct && x == Normalize(c);
      var j :| 0 <= j < |correct| && correct[j] == c;
      assert cs[j] == x;
    }
  }

  lemma FreeAnswerCorrectSound(user: seq<string>, correct: seq<string>)
    requires FreeAnswerCorrect(user, correct)
    ensures exists u, c :: u in user && !IsBlank(u) && c in correct && NormalMatch(u, c)
  {
    var us, cs := NonBlankNormalized(user), NormalizeAll(correct);
    AnyPairMatchesExists(us, cs);
    var a, x :| a in us && x in cs && PairMatches(a, x, cs);
    NonBlankNormalizedMembers(user, a);
    var u :| u in user && !IsBlank(u) && a == Normalize(u);
    if a in cs {
      NormalizeAllMembers(correct, a);
      var c :| c in correct && a == Normalize(c);
      assert NormalMatch(u, c);
    } else {
      NormalizeAllMembers(correct, x);
      var c :| c in correct && x == Normalize(c);
      assert NormalMatch(u, c);
    }
  }

  lemma FreeAnswerCorrectComplete(user: seq<string>, correct: seq<string>, u: string, c: string)
    requires u in user && !IsBlank(u) && c in correct && NormalMatch(u, c)
    ensures FreeAnswerCorrect(user, correct)
  {
    var us, cs := NonBlankNormalized(user), NormalizeAll(correct);
    NonBlankNormalizedMembers(user, Normalize(u));
    NormalizeAllMembers(correct, Normalize(c));
    assert PairMatches(Normalize(u), Normalize(c), cs);
    AnyPairMatchesExists(us, cs);
  }

  /**
   * The free-answer verdict in terms of the answers themselves: some non-blank
   * answer equals some correct answer after normalisation, or reaches a
   * similarity of at least 0.8 with one.
   */
  lemma FreeAnswerCorrectIff(user: seq<string>, correct: seq<string>)
    ensures FreeAnswerCorrect(user, correct) <==>
      exists u, c :: u in user && !IsBlank(u) && c in correct && NormalMatch(u, c)
  {
    if FreeAnswerCorrect(user, correct) {
      FreeAnswerCorrectSound(user, correct);
    }
    if exists u, c :: u in user && !IsBlank(u) && c in correct && NormalMatch(u, c) {
      var u, c :| u in user && !IsBlank(u) && c in correct && NormalMatch(u, c);
      FreeAnswerCorrectComplete(user, correct, u, c);
    }
  }

  /**
   * The exact-match test is subsumed by the similarity: a free answer is
   * accepted exactly when some non-blank answer contains at least 80% of the
   * words of some correct answer.
   */
  lemma FreeAnswerIsRecall(user: seq<string>, correct: seq<string>)
    ensures FreeAnswerCorrect(user, correct) <==>
      exists u, c :: u in user && !IsBlank(u) && c in correct && AtLeastFourFifths(Similarity(u, c))
  {
    FreeAnswerCorrectIff(user, correct);
    forall u, c | u in user && c in correct
      ensures NormalMatch(u, c) <==> AtLeastFourFifths(Similarity(u, c))
    {
      SimilarityOfNormalized(u, c);
      if Normalize(u) == Normalize(c) {
        SimilarityReflexive(Normalize(u));
      }
    }
  }

  /** A free answer whose entries are all blank is graded incorrect, whatever the correct answers. */
  lemma BlankFreeAnswerIncorrect(user: seq<string>, correct: seq<string>)
    requires forall u :: u in user ==> IsBlank(u)
    ensures !FreeAnswerCorrect(user, correct)
  {
    FreeAnswerIsRecall(user, correct);
  }

  /** Two answer lists that agree entry by entry once normalised. */
  predicate SameNormalForms(xs: seq<string>, ys: seq<string>) {
    |xs| == |ys| && forall i :: 0 <= i < |xs| ==> Normalize(xs[i]) == Normalize(ys[i])
  }

  /** Answers with equal normal forms are blank alike and equally similar to correct answers with equal normal forms. */
  lemma PairDependsOnNormalForms(u: string, u': string, c: string, c': string)
    requires Normalize(u) == Normalize(u') && Normalize(c) == Normalize(c')
    ensures IsBlank(u) == IsBlank(u')
    ensures Similarity(u, c) == Similarity(u', c')
  {
    NormalizeEmptyIffBlank(u);
    NormalizeEmptyIffBlank(u');
    SimilarityOfNormalized(u, c);
    SimilarityOfNormalized(u', c');
  }

  lemma FreeAnswerTransfers(user: seq<string>, user': seq<string>, correct: seq<string>, correct': seq<string>)
    requires SameNormalForms(user, user') && SameNormalForms(correct, correct')
    requires FreeAnswerCorrect(user, correct)
    ensures FreeAnswerCorrect(user', correct')
  {
    FreeAnswerIsRecall(user, correct);
    var u, c :| u in user && !IsBlank(u) && c in correct && AtLeastFourFifths(Similarity(u, c));
    var i :| 0 <= i < |user| && user[i] == u;
    var j :| 0 <= j < |correct| && correct[j] == c;
    PairDependsOnNormalForms(u, user'[i], c, correct'[j]);
    assert user'[i] in user' && correct'[j] in correct';
    FreeAnswerIsRecall(user', correct');
  }

  /**
   * The free-answer verdict depends only on the normal forms of the answers
   * and of the correct answers, so case and surrounding whitespace never matter.
   */
  lemma FreeAnswerDependsOnNormalForms(user: seq<string>, user': seq<string>, correct: seq<string>, correct': seq<string>)
    requires SameNormalForms(user, user') && SameNormalForms(correct, correct')
    ensures FreeAnswerCorrect(user, correct) == FreeAnswerCorrect(user', correct')
  {
    if FreeAnswerCorrect(user, correct) {
      FreeAnswerTransfers(user, user', correct, correct');
    }
    if FreeAnswerCorrect(user', correct') {
      FreeAnswerTransfers(user', user, correct', correct);
    }
  }

  /** In particular, upper case and whitespace around a single answer do not change its verdict. */
  lemma FreeAnswerIgnoresCaseAndPadding(p: string, ans: string, q: string, correct: seq<string>)
    requires AllSpace(p) && AllSpace(q)
    ensures FreeAnswerCorrect([p + ans + q], correct) == FreeAnswerCorrect([ans], correct)
    ensures FreeAnswerCorrect([Lower(ans)], correct) == FreeAnswerCorrect([ans], correct)
  {
    NormalizeIgnoresPadding(p, ans, q);
    NormalizeIgnoresCase(ans);
    FreeAnswerDependsOnNormalForms([p + ans + q], [ans], correct, correct);
    FreeAnswerDependsOnNormalForms([Lower(ans)], [ans], correct, correct);
  }

  /** The multiple-choice verdict holds exactly when the selection has the same members as the correct list. */
  lemma ChoiceCorrectIff(user: seq<string>, correct: seq<string>)
    ensures ChoiceCorrect(user, correct) <==> forall x :: x in user <==> x in correct
  {
    if ChoiceCorrect(user, correct) {
      forall x ensures x in user <==> x in correct {
        assert x in user <==> x in ToSet(user);
        assert x in correct <==> x in ToSet(correct);
      }
    }
    if forall x :: x in user <==> x in correct {
      assert ToSet(user) == ToSet(correct);
    }
  }

  /** Reordering or repeating the selected options never changes the multiple-choice verdict. */
  lemma ChoiceIgnoresOrderAndRepeats(user: seq<string>, user': seq<string>, correct: seq<string>)
    requires forall x :: x in user <==> x in user'
    ensures ChoiceCorrect(user, correct) == ChoiceCorrect(user', correct)
  {
    ChoiceCorrectIff(user, correct);
    ChoiceCorrectIff(user', correct);
  }

  /** Single answer "B" against the correct answer "B" is correct; "A" and "B" together are not. */
  lemma ChoiceExactSetRequired()
    ensures ChoiceCorrect(["B"], ["B"])
    ensures !ChoiceCorrect(["A", "B"], ["B"])
  {
    assert "A" in ToSet(["A", "B"]);
  }
}

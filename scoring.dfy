/**
 * The results page: the score tally as written, which credits a question
 * only when its recorded answer list equals the correct list, and the
 * per-question verdicts of the detail list, with a score that counts them.
 */
module Scoring {
  import opened Text
  import opened WordSimilarity
  import opened Questions
  import opened Grading

  /** The tally's test: an answer is recorded for the id and is list-equal to the correct list (case, order and spacing count). */
  predicate Credited(q: Question, answers: Answers) {
    q.id in answers && answers[q.id] == q.correct
  }

  /** Number of credited questions, over the bank in order. */
  function Tally(qs: seq<Question>, answers: Answers): (n: nat)
    ensures n <= |qs|
    decreases |qs|
  {
    if qs == [] then 0
    else Tally(qs[..|qs| - 1], answers) + (if Credited(qs[|qs| - 1], answers) then 1 else 0)
  }

  /** The positions in the bank whose question the tally credits. */
  function CreditedIndices(qs: seq<Question>, answers: Answers): (r: set<int>) {
    set i | 0 <= i < |qs| && Credited(qs[i], answers)
  }

  /** The positions in the bank whose question has a recorded answer. */
  function AnsweredIndices(qs: seq<Question>, answers: Answers): (r: set<int>) {
    set i | 0 <= i < |qs| && qs[i].id in answers
  }

  /** The score loop over the bank: `score += 1` for each credited question. */
  method Score(qs: seq<Question>, answers: Answers) returns (score: nat)
    ensures score == Tally(qs, answers)
    ensures score <= |qs|
  {
    score := 0;
    var i := 0;
    while i < |qs|
      invariant 0 <= i <= |qs|
      invariant score == Tally(qs[..i], answers)
    {
      assert qs[..i + 1][..i] == qs[..i];
      if qs[i].id in answers {
        if answers[qs[i].id] == qs[i].correct {
          score := score + 1;
        }
      }
      i := i + 1;
    }
    assert qs[..|qs|] == qs;
  }

  /** The tally is the number of questions whose recorded answer list equals their correct list. */
  lemma {:induction false} TallyCountsCredited(qs: seq<Question>, answers: Answers)
    ensures Tally(qs, answers) == |CreditedIndices(qs, answers)|
    decreases |qs|
  {
    if qs != [] {
      var n := |qs| - 1;
      var init := qs[..n];
      TallyCountsCredited(init, answers);
      var prev := CreditedIndices(init, answers);
      assert forall i :: 0 <= i < n ==> init[i] == qs[i];
      assert CreditedIndices(qs, answers) == prev + (if Credited(qs[n], answers) then {n} else {});
      assert n !in prev;
    }
  }

  /** Questions without a recorded answer never count: the tally is at most the number answered. */
  lemma TallyAtMostAnswered(qs: seq<Question>, answers: Answers)
    ensures Tally(qs, answers) <= |AnsweredIndices(qs, answers)|
  {
    TallyCountsCredited(qs, answers);
    SubsetCardinality(CreditedIndices(qs, answers), AnsweredIndices(qs, answers));
  }

  /** With no answers recorded, as after a restart, the tally is 0. */
  lemma TallyOfNoAnswers(qs: seq<Question>)
    ensures Tally(qs, map[]) == 0
  {
    TallyAtMostAnswered(qs, map[]);
    assert AnsweredIndices(qs, map[]) == {};
  }

  /** When every question is credited, the tally is the size of the bank. */
  lemma {:induction false} TallyAllCredited(qs: seq<Question>, answers: Answers)
    requires forall i :: 0 <= i < |qs| ==> Credited(qs[i], answers)
    ensures Tally(qs, answers) == |qs|
    decreases |qs|
  {
    if qs != [] {
      var n := |qs| - 1;
      assert forall i :: 0 <= i < n ==> qs[..n][i] == qs[i];
      TallyAllCredited(qs[..n], answers);
    }
  }

  /** The per-question verdicts of the detail list, `answers.get(id, [])` graded in bank order. */
  function Verdicts(qs: seq<Question>, answers: Answers): (v: seq<bool>)
    ensures |v| == |qs|
    ensures forall i :: 0 <= i < |qs| ==> v[i] == Grade(qs[i], Lookup(answers, qs[i].id))
  {
    seq(|qs|, i requires 0 <= i < |qs| => Grade(qs[i], Lookup(answers, qs[i].id)))
  }

  /**
   * What the detail list shows for a question: a free answer is marked
   * correct exactly when some non-blank recorded entry reaches similarity 0.8
   * with some correct answer, and any other question exactly when the
   * recorded list and the correct list have the same members.
   */
  lemma VerdictsMeaning(qs: seq<Question>, answers: Answers, i: int)
    requires 0 <= i < |qs|
    ensures var q, user := qs[i], Lookup(answers, qs[i].id);
            Verdicts(qs, answers)[i] <==>
              if q.qtype == FreeAnswer then
                exists u, c :: u in user && !IsBlank(u) && c in q.correct && AtLeastFourFifths(Similarity(u, c))
              else
                forall x :: x in user <==> x in q.correct
  {
    var q, user := qs[i], Lookup(answers, qs[i].id);
    if q.qtype == FreeAnswer {
      FreeAnswerIsRecall(user, q.correct);
    } else {
      ChoiceCorrectIff(user, q.correct);
    }
  }

  /** A question with no recorded answer: a free answer is marked incorrect, any other question correct only when its correct list is empty. */
  lemma UnansweredVerdict(q: Question, answers: Answers)
    requires q.id !in answers
    ensures Grade(q, Lookup(answers, q.id)) <==> q.qtype != FreeAnswer && q.correct == []
  {
    if q.qtype == FreeAnswer {
      BlankFreeAnswerIncorrect([], q.correct);
    } else {
      ChoiceCorrectIff([], q.correct);
      if q.correct != [] {
        assert q.correct[0] in q.correct;
      }
    }
  }

  /** Number of `true` entries. */
  function CountTrue(v: seq<bool>): (n: nat)
    ensures n <= |v|
    decreases |v|
  {
    if v == [] then 0 else CountTrue(v[..|v| - 1]) + (if v[|v| - 1] then 1 else 0)
  }

  /** Number of questions whose verdict is correct, over the bank in order. */
  function GradedTally(qs: seq<Question>, answers: Answers): (n: nat)
    ensures n <= |qs|
    decreases |qs|
  {
    if qs == [] then 0
    else GradedTally(qs[..|qs| - 1], answers) + (if Grade(qs[|qs| - 1], Lookup(answers, qs[|qs| - 1].id)) then 1 else 0)
  }

  /** The graded tally is the number of questions the detail list marks correct. */
  lemma {:induction false} GradedTallyCountsVerdicts(qs: seq<Question>, answers: Answers)
    ensures GradedTally(qs, answers) == CountTrue(Verdicts(qs, answers))
    decreases |qs|
  {
    if qs != [] {
      var n := |qs| - 1;
      GradedTallyCountsVerdicts(qs[..n], answers);
      assert Verdicts(qs, answers)[..n] == Verdicts(qs[..n], answers);
    }
  }

  /** A score that agrees with the detail list: one point per question marked correct. */
  method GradedScore(qs: seq<Question>, answers: Answers) returns (score: nat)
    ensures score == CountTrue(Verdicts(qs, answers))
    ensures score <= |qs|
  {
    score := 0;
    var i := 0;
    while i < |qs|
      invariant 0 <= i <= |qs|
      invariant score == GradedTally(qs[..i], answers)
    {
      assert qs[..i + 1][..i] == qs[..i];
      if Grade(qs[i], Lookup(answers, qs[i].id)) {
        score := score + 1;
      }
      i := i + 1;
    }
    assert qs[..|qs|] == qs;
    GradedTallyCountsVerdicts(qs, answers);
  }

  /** A question a list-equal answer can pass: a free-answer question needs a non-blank correct answer. */
  predicate Gradable(q: Question) {
    q.qtype == FreeAnswer ==> exists c :: c in q.correct && !IsBlank(c)
  }

  /** What the tally credits, the verdict accepts, for every gradable question. */
  lemma CreditedImpliesGraded(q: Question, answers: Answers)
    requires Gradable(q) && Credited(q, answers)
    ensures Grade(q, Lookup(answers, q.id))
  {
    var user := Lookup(answers, q.id);
    assert user == q.correct;
    if q.qtype == FreeAnswer {
      var c :| c in q.correct && !IsBlank(c);
      assert NormalMatch(c, c);
      FreeAnswerCorrectComplete(user, q.correct, c, c);
    }
  }

  /** On a bank of gradable questions the tally never exceeds the graded tally. */
  lemma {:induction false} TallyAtMostGraded(qs: seq<Question>, answers: Answers)
    requires forall i :: 0 <= i < |qs| ==> Gradable(qs[i])
    ensures Tally(qs, answers) <= GradedTally(qs, answers)
    decreases |qs|
  {
    if qs != [] {
      var n := |qs| - 1;
      var init, last := qs[..n], qs[n];
      assert forall i :: 0 <= i < n ==> init[i] == qs[i];
      TallyAtMostGraded(init, answers);
      assert Tally(qs, answers) == Tally(init, answers) + (if Credited(last, answers) then 1 else 0);
      assert GradedTally(qs, answers) == GradedTally(init, answers) + (if Grade(last, Lookup(answers, last.id)) then 1 else 0);
      if Credited(last, answers) {
        CreditedImpliesGraded(last, answers);
      }
    }
  }

  /**
   * The tally and the detail list disagree: a two-answer choice question whose
   * correct list is ["B", "A"], answered by ticking both boxes (recorded in
   * option order as ["A", "B"]), is marked correct but scores 0.
   */
  lemma ReorderedSelectionNotCounted()
    ensures var qs := [Question(1, MultipleChoice, ["B", "A"])];
            var answers := map[1 := ["A", "B"]];
            Tally(qs, answers) == 0 && CountTrue(Verdicts(qs, answers)) == 1
  {
    var qs := [Question(1, MultipleChoice, ["B", "A"])];
    var answers := map[1 := ["A", "B"]];
    assert ["A", "B"] != ["B", "A"] by { assert ["A", "B"][0] != ["B", "A"][0]; }
    assert ToSet(["A", "B"]) == ToSet(["B", "A"]);
    assert Verdicts(qs, answers) == [true];
    assert qs[..0] == [];
  }

  /** A free-answer question whose only correct answer is blank (" ", say) is credited by the tally yet graded incorrect. */
  lemma BlankCorrectCreditedNotGraded(id: int, c: string)
    requires IsBlank(c)
    ensures var q := Question(id, FreeAnswer, [c]);
            var answers := map[id := [c]];
            Credited(q, answers) && !Grade(q, Lookup(answers, q.id))
  {
    assert forall u :: u in [c] ==> u == c;
    BlankFreeAnswerIncorrect([c], [c]);
  }
}

/**
 * The quiz session kept in the page's session state: the current question
 * index, the recorded answers by id, and whether the quiz was submitted.
 * Each button of the page is a method; a button the page does not show in
 * the current state is rejected and changes nothing.
 */
module Session {
  import opened Questions
  import opened Scoring

  class QuizSession {
    /** The question bank, in file order. */
    const questions: seq<Question>
    var currentQuestion: int
    var answers: Answers
    var submitted: bool

    /** The current index always names a question of the bank. */
    predicate Valid()
      reads this
    {
      0 <= currentQuestion < |questions|
    }

    /** The question the page shows while the quiz is not submitted. */
    function Current(): (q: Question)
      reads this
      requires Valid()
      ensures q in questions
    {
      questions[currentQuestion]
    }

    /** The initial session state; the page indexes the bank at once, so the bank is not empty. */
    constructor (bank: seq<Question>)
      requires |bank| > 0
      ensures Valid()
      ensures questions == bank
      ensures currentQuestion == 0 && answers == map[] && !submitted
    {
      questions := bank;
      currentQuestion := 0;
      answers := map[];
      submitted := false;
    }

    /** The answer widgets of the current question store their value under its id; other ids keep theirs. */
    method RecordAnswer(answer: seq<string>) returns (recorded: bool)
      requires Valid()
      modifies this
      ensures Valid()
      ensures recorded == (!old(submitted) && !old(Current()).qtype.Other?)
      ensures answers == if recorded then old(answers)[old(Current()).id := answer] else old(answers)
      ensures recorded ==> old(Current()).id in answers && answers[old(Current()).id] == answer
      ensures forall id :: id != old(Current()).id ==>
                (id in answers <==> id in old(answers)) && (id in answers ==> answers[id] == old(answers)[id])
      ensures forall id :: Lookup(answers, id) ==
                if recorded && id == old(Current()).id then answer else Lookup(old(answers), id)
      ensures currentQuestion == old(currentQuestion) && submitted == old(submitted)
    {
      var q := questions[currentQuestion];
      recorded := !submitted && !q.qtype.Other?;
      if recorded {
        answers := answers[q.id := answer];
      }
    }

    /** "Previous": shown only past the first question. */
    method Previous() returns (moved: bool)
      requires Valid()
      modifies this
      ensures Valid()
      ensures moved == (!old(submitted) && old(currentQuestion) > 0)
      ensures currentQuestion == if moved then old(currentQuestion) - 1 else old(currentQuestion)
      ensures answers == old(answers) && submitted == old(submitted)
    {
      moved := !submitted && currentQuestion > 0;
      if moved {
        currentQuestion := currentQuestion - 1;
      }
    }

    /** "Next": shown only before the last question. */
    method Next() returns (moved: bool)
      requires Valid()
      modifies this
      ensures Valid()
      ensures moved == (!old(submitted) && old(currentQuestion) < |questions| - 1)
      ensures currentQuestion == if moved then old(currentQuestion) + 1 else old(currentQuestion)
      ensures answers == old(answers) && submitted == old(submitted)
    {
      moved := !submitted && currentQuestion < |questions| - 1;
      if moved {
        currentQuestion := currentQuestion + 1;
      }
    }

    /** "Submit": shown in place of "Next" on the last question; it leaves the index where it is. */
    method Submit() returns (done: bool)
      requires Valid()
      modifies this
      ensures Valid()
      ensures done == (!old(submitted) && old(currentQuestion) == |questions| - 1)
      ensures submitted == (old(submitted) || done)
      ensures currentQuestion == old(currentQuestion) && answers == old(answers)
    {
      done := !submitted && !(currentQuestion < |questions| - 1);
      if done {
        submitted := true;
      }
    }

    /** "Restart": shown on the results page; it returns to the first question with no answers. */
    method Restart() returns (restarted: bool)
      requires Valid()
      modifies this
      ensures Valid()
      ensures restarted == old(submitted)
      ensures restarted ==> currentQuestion == 0 && answers == map[] && !submitted
      ensures !restarted ==> currentQuestion == old(currentQuestion) && answers == old(answers) && !submitted
    {
      restarted := submitted;
      if restarted {
        currentQuestion := 0;
        answers := map[];
        submitted := false;
      }
    }

    /** The score the results page displays: the tally of list-equal answers. */
    method DisplayedScore() returns (score: nat)
      requires Valid()
      ensures score == Tally(questions, answers) && score <= |questions|
    {
      score := Score(questions, answers);
    }

    /** The score that agrees with the detail list: the number of questions marked correct. */
    method CorrectCount() returns (score: nat)
      requires Valid()
      ensures score == CountTrue(Verdicts(questions, answers)) && score <= |questions|
    {
      score := GradedScore(questions, answers);
    }
  }
}

/** The question records of the bank, as the quiz reads them. */
module Questions {

  /** The `type` field: the verdict treats every type other than free answer as multiple choice. */
  datatype QuestionType = MultipleChoice | FreeAnswer | Other(tag: string)

  /** One question of the bank, reduced to the fields the decision logic reads. */
  datatype Question = Question(id: int, qtype: QuestionType, correct: seq<string>)

  /** The recorded answers, by question id (`st.session_state.answers`). */
  type Answers = map<int, seq<string>>

  /** `answers.get(id, [])`. */
  function Lookup(answers: Answers, id: int): (r: seq<string>)
    ensures id !in answers ==> r == []
    ensures id in answers ==> r == answers[id]
  {
    if id in answers then answers[id] else []
  }

  /** Storing a list under one id: that id now reads as the list, and every other id reads as before. */
  lemma LookupOfUpdate(answers: Answers, id: int, answer: seq<string>, other: int)
    ensures Lookup(answers[id := answer], id) == answer
    ensures other != id ==> Lookup(answers[id := answer], other) == Lookup(answers, other)
  {
  }
}

/**
 * The generated question mapper: null-aware field copies from entities to
 * the transfer objects a player sees. A player-facing answer carries the
 * answer's id and text only, so the `correct` flag never leaves the server.
 */
module QuestionMapper {
  import opened Entities

  /** Long.intValue(): the low 32 bits of a 64-bit id, read as a signed int. */
  function IntValue(x: int): (r: int)
    ensures -0x8000_0000 <= r < 0x8000_0000
    ensures (x - r) % 0x1_0000_0000 == 0
    ensures -0x8000_0000 <= x < 0x8000_0000 ==> r == x
  {
    var low := x % 0x1_0000_0000;
    if low >= 0x8000_0000 then low - 0x1_0000_0000 else low
  }

  /** answerToQuizAnswerDTO: null stays null, otherwise id and text are copied. */
  function AnswerToQuizAnswerDTO(answer: Option<Answer>): (r: Option<QuizAnswerDTO>)
    ensures r.Some? <==> answer.Some?
    ensures answer.Some? ==> r.value.id == Some(answer.value.id) && r.value.answer == Some(answer.value.text)
  {
    match answer
    case None => None
    case Some(a) => Some(QuizAnswerDTO(Some(a.id), Some(a.text)))
  }

  /** The player-facing view of one stored answer. */
  function QuizAnswer(a: Answer): QuizAnswerDTO
  {
    AnswerToQuizAnswerDTO(Some(a)).value
  }

  /**
   * The stream `answers.stream().map(questionMapper::answerToQuizAnswerDTO)`:
   * one player-facing answer per stored answer, in the same order.
   */
  function QuizAnswers(answers: seq<Answer>): (r: seq<QuizAnswerDTO>)
    ensures |r| == |answers|
  {
    seq(|answers|, i requires 0 <= i < |answers| => QuizAnswer(answers[i]))
  }

  /** What a player sees of an answer does not depend on its `correct` flag or its question. */
  lemma QuizAnswerHidesCorrectness(a: Answer, correct: bool, questionId: int)
    ensures QuizAnswer(a) == QuizAnswer(a.(correct := correct, questionId := questionId))
  {
  }

  /**
   * Two answer lists that differ only in their `correct` flags and question
   * references look the same to a player, element by element.
   */
  lemma QuizAnswersHideCorrectness(xs: seq<Answer>, ys: seq<Answer>)
    requires |xs| == |ys|
    requires forall i :: 0 <= i < |xs| ==> xs[i].id == ys[i].id && xs[i].text == ys[i].text
    ensures QuizAnswers(xs) == QuizAnswers(ys)
  {
  }

  /**
   * questionToQuizQuestionDTO: null only when both arguments are null; the
   * question's id, text, difficulty and topic are copied when it is present,
   * and the answer list is copied into a fresh list with the same elements.
   */
  function QuestionToQuizQuestionDTO(question: Option<Question>, answers: Option<seq<QuizAnswerDTO>>): (r: Option<QuizQuestionDTO>)
    ensures r.None? <==> question.None? && answers.None?
    ensures r.Some? ==> r.value.answers == answers
    ensures r.Some? && question.Some? ==>
      && r.value.id == Some(question.value.id)
      && r.value.question == Some(question.value.text)
      && r.value.difficulty == Some(question.value.difficulty)
      && r.value.topic == Some(question.value.topic)
    ensures r.Some? && question.None? ==>
      r.value.id.None? && r.value.question.None? && r.value.difficulty.None? && r.value.topic.None?
  {
    if question.None? && answers.None? then None
    else
      match question
      case Some(q) => Some(QuizQuestionDTO(Some(q.id), Some(q.text), Some(q.difficulty), Some(q.topic), answers))
      case None => Some(QuizQuestionDTO(None, None, None, None, answers))
  }

  /**
   * questionToCorrectQuestionDTO: null only when question and answer are both
   * null; id and info come from the question, `correct` from the argument,
   * and correctAnswerId is the int value of the correct answer's id (0 when
   * there is no correct answer).
   */
  function QuestionToCorrectQuestionDTO(question: Option<Question>, correct: bool, correctAnswer: Option<Answer>): (r: Option<CorrectQuestionDTO>)
    ensures r.None? <==> question.None? && correctAnswer.None?
    ensures r.Some? ==> r.value.correct == correct
    ensures r.Some? ==> r.value.id == (if question.Some? then Some(question.value.id) else None)
    ensures r.Some? ==> r.value.info == (if question.Some? then Some(question.value.info) else None)
    ensures r.Some? && correctAnswer.Some? ==> r.value.correctAnswerId == IntValue(correctAnswer.value.id)
    ensures r.Some? && correctAnswer.None? ==> r.value.correctAnswerId == 0
  {
    if question.None? && correctAnswer.None? then None
    else
      var id := if question.Some? then Some(question.value.id) else None;
      var info := if question.Some? then Some(question.value.info) else None;
      var answerId := if correctAnswer.Some? then IntValue(correctAnswer.value.id) else 0;
      Some(CorrectQuestionDTO(id, info, correct, answerId))
  }
}

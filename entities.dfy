/**
 * Shared vocabulary of the quiz back end: the optional and result wrappers
 * used instead of null and exceptions, the error kinds the services raise,
 * the stored entities and the transfer objects built from them.
 */
module Entities {

  /** A value that may be absent; stands for a Java reference that may be null. */
  datatype Option<T> = None | Some(value: T)

  /** The entity an error of kind NotFound refers to. */
  datatype Entity = TopicEntity | QuestionEntity | AnswerEntity | HighscoreEntity

  /**
   * The exceptions the services throw, by kind. The messages are not kept:
   * callers of the model match on the kind.
   */
  datatype Error =
    | NotFound(entity: Entity)    // "<Entity> not found with id ..."
    | NoQuestions                 // "No questions found for topic ... and difficulty ..."
    | MissingArgument             // "... must be defined"
    | TooManyAnswers              // "A question can only have 4 answers."
    | SecondCorrectAnswer         // "A question can only have one correct answer."
    | NoCorrectAnswer             // "A question must have at least one correct answer."
    | NoSuchElement               // Optional.orElseThrow() on an empty Optional
    | IllegalArgument             // Random.nextInt(0), List.subList(0, negative)
    | BadRequest                  // a 400 response built by a controller

  /** The result of a service call: a value, or the exception it throws. */
  datatype Result<T> = Ok(value: T) | Err(error: Error)

  /** The result of a service call that returns nothing. */
  datatype Outcome = Done | Fail(error: Error)

  /** Question difficulty, in declaration order. */
  datatype Difficulty = Easy | Medium | Hard

  /** Enum.ordinal() of a difficulty: its position in the declaration. */
  function Ordinal(d: Difficulty): (n: nat)
    ensures n < 3
  {
    match d
    case Easy => 0
    case Medium => 1
    case Hard => 2
  }

  datatype Topic = Topic(id: int, name: string, description: string)

  /** A question; `topic` is the eagerly loaded topic row it belongs to. */
  datatype Question = Question(id: int, text: string, info: string, difficulty: Difficulty, topic: Topic)

  /** An answer; it refers to its question by the question's id. */
  datatype Answer = Answer(id: int, text: string, correct: bool, questionId: int)

  /** A highscore; `topic` is the eagerly loaded topic row it belongs to. */
  datatype Highscore = Highscore(id: int, playerName: string, score: int, difficulty: Difficulty, topic: Topic)

  /** An answer as shown to a player: no `correct` flag, no question. */
  datatype QuizAnswerDTO = QuizAnswerDTO(id: Option<int>, answer: Option<string>)

  /** A question as shown to a player, with its answers. */
  datatype QuizQuestionDTO = QuizQuestionDTO(
    id: Option<int>,
    question: Option<string>,
    difficulty: Option<Difficulty>,
    topic: Option<Topic>,
    answers: Option<seq<QuizAnswerDTO>>)

  /** The verdict on a submitted answer; `correctAnswerId` is a Java int (0 when unset). */
  datatype CorrectQuestionDTO = CorrectQuestionDTO(id: Option<int>, info: Option<string>, correct: bool, correctAnswerId: int)

  /** A topic with the difficulties it can be played at. */
  datatype TopicDTO = TopicDTO(id: int, name: string, description: string, difficulty: seq<Difficulty>)

  /** The body of an answer submission; the answer id and the player name may be null. */
  datatype QuizCorrectAnswerDTO = QuizCorrectAnswerDTO(answerId: Option<int>, playerName: Option<string>, score: int)
}

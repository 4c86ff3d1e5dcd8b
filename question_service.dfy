/**
 * The quiz session engine: serving a question of a topic and difficulty
 * with its answers shuffled, judging a submitted answer (recording a
 * highscore when the game ends on a wrong answer or on a timeout), the
 * fifty-fifty joker, and the question table's update and delete.
 *
 * The random draws of the original become parameters: `pick` chooses the
 * question (taken modulo the number of candidates, as Random.nextInt(n)
 * yields a number below n), `keys` drive the answer shuffle, and `skip` and
 * `correctFirst` drive the joker.
 */
module Questions {
  import opened Entities
  import opened QuestionMapper
  import opened Answers
  import opened Highscores
  import opened TopicStore

  // ---------------------------------------------------------------------------
  // Finding questions

  /** findById: the position of the question with the given id. */
  function FindQuestionIndex(qs: seq<Question>, id: int): (r: Option<nat>)
    ensures r.Some? ==> r.value < |qs| && qs[r.value].id == id
    ensures r.None? <==> forall i :: 0 <= i < |qs| ==> qs[i].id != id
  {
    if qs == [] then None
    else if qs[0].id == id then Some(0)
    else
      match FindQuestionIndex(qs[1..], id)
      case None => None
      case Some(k) => Some(k + 1)
  }

  /** findById, as the Optional it returns. */
  function QuestionById(qs: seq<Question>, id: int): (r: Option<Question>)
    ensures r.Some? ==> r.value in qs && r.value.id == id
    ensures r.None? <==> forall i :: 0 <= i < |qs| ==> qs[i].id != id
  {
    var k := FindQuestionIndex(qs, id);
    if k.Some? then Some(qs[k.value]) else None
  }

  /** findByTopicIdAndDifficulty: the questions of a topic at a difficulty, in table order. */
  function QuestionsOf(qs: seq<Question>, topicId: int, difficulty: Difficulty): (r: seq<Question>)
    ensures |r| <= |qs|
  {
    if qs == [] then []
    else
      var last := qs[|qs| - 1];
      QuestionsOf(qs[..|qs| - 1], topicId, difficulty) +
        (if last.topic.id == topicId && last.difficulty == difficulty then [last] else [])
  }

  /** findByTopicId: the questions of a topic, in table order. */
  function QuestionsOfTopic(qs: seq<Question>, topicId: int): (r: seq<Question>)
    ensures |r| <= |qs|
  {
    if qs == [] then []
    else
      var last := qs[|qs| - 1];
      QuestionsOfTopic(qs[..|qs| - 1], topicId) + (if last.topic.id == topicId then [last] else [])
  }

  lemma {:induction false} QuestionsOfMembers(qs: seq<Question>, topicId: int, difficulty: Difficulty, q: Question)
    ensures q in QuestionsOf(qs, topicId, difficulty) <==> q in qs && q.topic.id == topicId && q.difficulty == difficulty
  {
    if qs != [] {
      QuestionsOfMembers(qs[..|qs| - 1], topicId, difficulty, q);
      assert qs == qs[..|qs| - 1] + [qs[|qs| - 1]];
    }
  }

  lemma {:induction false} QuestionsOfTopicMembers(qs: seq<Question>, topicId: int, q: Question)
    ensures q in QuestionsOfTopic(qs, topicId) <==> q in qs && q.topic.id == topicId
  {
    if qs != [] {
      QuestionsOfTopicMembers(qs[..|qs| - 1], topicId, q);
      assert qs == qs[..|qs| - 1] + [qs[|qs| - 1]];
    }
  }

  // ---------------------------------------------------------------------------
  // The two removeIf filters

  /** A question can be played once it has at least 4 answers. */
  predicate Playable(q: Question, table: seq<Answer>)
  {
    |AnswersOf(table, q.id)| >= 4
  }

  /** The questions the first removeIf keeps: those with at least 4 answers. */
  function KeepPlayable(qs: seq<Question>, table: seq<Answer>): seq<Question>
  {
    if qs == [] then []
    else KeepPlayable(qs[..|qs| - 1], table) + (if Playable(qs[|qs| - 1], table) then [qs[|qs| - 1]] else [])
  }

  /** The questions the second removeIf keeps: those whose id is not excluded. */
  function KeepNotExcluded(qs: seq<Question>, excludeIds: seq<int>): seq<Question>
  {
    if qs == [] then []
    else KeepNotExcluded(qs[..|qs| - 1], excludeIds) + (if qs[|qs| - 1].id in excludeIds then [] else [qs[|qs| - 1]])
  }

  lemma {:induction false} KeepPlayableMembers(qs: seq<Question>, table: seq<Answer>, q: Question)
    ensures q in KeepPlayable(qs, table) <==> q in qs && Playable(q, table)
  {
    if qs != [] {
      KeepPlayableMembers(qs[..|qs| - 1], table, q);
      assert qs == qs[..|qs| - 1] + [qs[|qs| - 1]];
    }
  }

  lemma {:induction false} KeepNotExcludedMembers(qs: seq<Question>, excludeIds: seq<int>, q: Question)
    ensures q in KeepNotExcluded(qs, excludeIds) <==> q in qs && q.id !in excludeIds
  {
    if qs != [] {
      KeepNotExcludedMembers(qs[..|qs| - 1], excludeIds, q);
      assert qs == qs[..|qs| - 1] + [qs[|qs| - 1]];
    }
  }

  /** questions.removeIf(question -> answers of question < 4), on the fetched list. */
  method RemoveUnplayable(qs: seq<Question>, table: seq<Answer>) returns (kept: seq<Question>)
    ensures kept == KeepPlayable(qs, table)
  {
    kept := [];
    var i := 0;
    while i < |qs|
      invariant 0 <= i <= |qs|
      invariant kept == KeepPlayable(qs[..i], table)
    {
      assert qs[..i + 1][..i] == qs[..i];
      if |AnswersOf(table, qs[i].id)| >= 4 {
        kept := kept + [qs[i]];
      }
      i := i + 1;
    }
    assert qs[..i] == qs;
  }

  /** questions.removeIf(question -> excludeIds.contains(question.getId())), on the fetched list. */
  method RemoveExcluded(qs: seq<Question>, excludeIds: seq<int>) returns (kept: seq<Question>)
    ensures kept == KeepNotExcluded(qs, excludeIds)
  {
    kept := [];
    var i := 0;
    while i < |qs|
      invariant 0 <= i <= |qs|
      invariant kept == KeepNotExcluded(qs[..i], excludeIds)
    {
      assert qs[..i + 1][..i] == qs[..i];
      if qs[i].id !in excludeIds {
        kept := kept + [qs[i]];
      }
      i := i + 1;
    }
    assert qs[..i] == qs;
  }

  /** The questions getQuizQuestion may serve. */
  function Remaining(qs: seq<Question>, table: seq<Answer>, topicId: int, difficulty: Difficulty, excludeIds: seq<int>): seq<Question>
  {
    KeepNotExcluded(KeepPlayable(QuestionsOf(qs, topicId, difficulty), table), excludeIds)
  }

  /**
   * A question can be served exactly when it is stored under the requested
   * topic and difficulty, has at least 4 answers and is not excluded.
   */
  lemma RemainingMembers(qs: seq<Question>, table: seq<Answer>, topicId: int, difficulty: Difficulty, excludeIds: seq<int>, q: Question)
    ensures q in Remaining(qs, table, topicId, difficulty, excludeIds) <==>
            && q in qs && q.topic.id == topicId && q.difficulty == difficulty
            && |AnswersOf(table, q.id)| >= 4
            && q.id !in excludeIds
  {
    var candidates := QuestionsOf(qs, topicId, difficulty);
    KeepNotExcludedMembers(KeepPlayable(candidates, table), excludeIds, q);
    KeepPlayableMembers(candidates, table, q);
    QuestionsOfMembers(qs, topicId, difficulty, q);
  }

  /** The question drawn by `pick` is one getQuizQuestion may serve. */
  lemma PickedIsEligible(qs: seq<Question>, table: seq<Answer>, topicId: int, difficulty: Difficulty, excludeIds: seq<int>, pick: nat)
    requires Remaining(qs, table, topicId, difficulty, excludeIds) != []
    ensures var remaining := Remaining(qs, table, topicId, difficulty, excludeIds);
            var q := remaining[pick % |remaining|];
            && q in qs && q.topic.id == topicId && q.difficulty == difficulty
            && |AnswersOf(table, q.id)| >= 4
            && q.id !in excludeIds
  {
    var remaining := Remaining(qs, table, topicId, difficulty, excludeIds);
    RemainingMembers(qs, table, topicId, difficulty, excludeIds, remaining[pick % |remaining|]);
  }

  // ---------------------------------------------------------------------------
  // The answer shuffle

  /**
   * answers.sort with a random comparator, modelled as a series of swaps
   * whose partners the caller chooses: the answers come back in some order,
   * each exactly as often as before.
   */
  method ShuffleAnswers(a: array<Answer>, keys: seq<nat>)
    modifies a
    ensures multiset(a[..]) == multiset(old(a[..]))
  {
    var i := 0;
    while i < a.Length
      invariant 0 <= i <= a.Length
      invariant multiset(a[..]) == multiset(old(a[..]))
    {
      var key := if i < |keys| then keys[i] else 0;
      var j := i + key % (a.Length - i);
      a[i], a[j] := a[j], a[i];
      i := i + 1;
    }
  }

  // ---------------------------------------------------------------------------
  // Judging an answer

  /** The position of the first answer flagged correct. */
  function FirstCorrectIndex(s: seq<Answer>): (r: Option<nat>)
    ensures r.Some? ==> r.value < |s| && s[r.value].correct && forall j :: 0 <= j < r.value ==> !s[j].correct
    ensures r.None? <==> !HasCorrect(s)
  {
    if s == [] then None
    else if s[0].correct then Some(0)
    else
      match FirstCorrectIndex(s[1..])
      case None => None
      case Some(k) => Some(k + 1)
  }

  /** Some answer of s carries the given id. */
  predicate HasAnswerId(s: seq<Answer>, id: int)
  {
    exists i :: 0 <= i < |s| && s[i].id == id
  }

  /**
   * The verdict checkCorrectAnswer returns for a submission on question
   * `id`: its error checks in order, then the verdict against the first
   * answer flagged correct. An answer id of 0 (the quiz timer ran out)
   * skips the membership check.
   */
  function Verdict(qs: seq<Question>, table: seq<Answer>, id: int, submission: QuizCorrectAnswerDTO): Result<CorrectQuestionDTO>
  {
    if submission.answerId.None? || submission.playerName.None? then Err(MissingArgument)
    else
      match QuestionById(qs, id)
      case None => Err(NotFound(QuestionEntity))
      case Some(q) =>
        var answers := AnswersOf(table, q.id);
        var answerId := submission.answerId.value;
        if answerId != 0 && !HasAnswerId(answers, answerId) then Err(NotFound(AnswerEntity))
        else
          match FirstCorrectIndex(answers)
          case None => Err(NoSuchElement)
          case Some(k) =>
            var dto := QuestionToCorrectQuestionDTO(Some(q), answers[k].id == answerId, Some(answers[k]));
            Ok(dto.value)
  }

  /**
   * When checkCorrectAnswer fails, and with which error: a missing answer id
   * or player name, an unknown question, a non-zero answer id that is not
   * one of the question's answers, or a question with no correct answer.
   */
  lemma VerdictErrors(qs: seq<Question>, table: seq<Answer>, id: int, submission: QuizCorrectAnswerDTO)
    ensures var r := Verdict(qs, table, id, submission);
            && (submission.answerId.None? || submission.playerName.None? <==> r == Err(MissingArgument))
            && (submission.answerId.Some? && submission.playerName.Some? ==>
                  && (QuestionById(qs, id).None? <==> r == Err(NotFound(QuestionEntity)))
                  && (QuestionById(qs, id).Some? ==>
                        var answers := AnswersOf(table, id);
                        var answerId := submission.answerId.value;
                        && (answerId != 0 && !HasAnswerId(answers, answerId) <==> r == Err(NotFound(AnswerEntity)))
                        && ((answerId == 0 || HasAnswerId(answers, answerId)) && !HasCorrect(answers) <==> r == Err(NoSuchElement))
                        && (r.Ok? <==> (answerId == 0 || HasAnswerId(answers, answerId)) && HasCorrect(answers))))
  {
  }

  /**
   * A verdict reports the question's id and info whatever the outcome, the
   * id of the first answer flagged correct, and `correct` exactly when the
   * submitted id is that answer's id.
   */
  lemma VerdictContents(qs: seq<Question>, table: seq<Answer>, id: int, submission: QuizCorrectAnswerDTO)
    requires Verdict(qs, table, id, submission).Ok?
    ensures var r := Verdict(qs, table, id, submission).value;
            var q := QuestionById(qs, id).value;
            var answers := AnswersOf(table, id);
            var k := FirstCorrectIndex(answers).value;
            && r.id == Some(id) && r.info == Some(q.info)
            && answers[k].correct && (forall j :: 0 <= j < k ==> !answers[j].correct)
            && r.correctAnswerId == IntValue(answers[k].id)
            && (r.correct <==> submission.answerId.value == answers[k].id)
  {
  }

  /**
   * A timeout is always judged wrong: answer ids are positive, so none of
   * them is 0. It also passes the membership check, so a timeout on a
   * question with a correct answer always gets a verdict.
   */
  lemma TimeoutIsWrong(qs: seq<Question>, table: seq<Answer>, id: int, submission: QuizCorrectAnswerDTO, next: int)
    requires IdsBelow(table, next)
    requires submission.answerId == Some(0) && submission.playerName.Some?
    requires QuestionById(qs, id).Some? && HasCorrect(AnswersOf(table, id))
    ensures Verdict(qs, table, id, submission).Ok?
    ensures !Verdict(qs, table, id, submission).value.correct
  {
    var answers := AnswersOf(table, id);
    var k := FirstCorrectIndex(answers).value;
    AnswersOfMembers(table, id, answers[k]);
  }

  /**
   * With at most one correct answer per question and unique ids, the
   * verdict is `correct` exactly when the submitted answer is flagged
   * correct.
   */
  lemma VerdictMatchesFlag(qs: seq<Question>, table: seq<Answer>, id: int, submission: QuizCorrectAnswerDTO)
    requires TableCapOk(table) && UniqueIds(table)
    requires Verdict(qs, table, id, submission).Ok?
    ensures Verdict(qs, table, id, submission).value.correct <==>
            exists a :: a in AnswersOf(table, id) && a.id == submission.answerId.value && a.correct
  {
    var answers := AnswersOf(table, id);
    var k := FirstCorrectIndex(answers).value;
    var answerId := submission.answerId.value;
    assert answers[k] in answers;
    forall a | a in answers && a.id == answerId && a.correct
      ensures a.id == answers[k].id
    {
      if a != answers[k] {
        TwoCorrect(answers, a, answers[k]);
        assert false;
      }
    }
  }

  // ---------------------------------------------------------------------------
  // The fifty-fifty joker

  /** The answers not flagged correct, in list order. */
  function Wrongs(s: seq<Answer>): (r: seq<Answer>)
    ensures |r| <= |s|
  {
    if s == [] then []
    else Wrongs(s[..|s| - 1]) + (if s[|s| - 1].correct then [] else [s[|s| - 1]])
  }

  lemma {:induction false} WrongsMembers(s: seq<Answer>, a: Answer)
    ensures a in Wrongs(s) <==> a in s && !a.correct
  {
    if s != [] {
      WrongsMembers(s[..|s| - 1], a);
      assert s == s[..|s| - 1] + [s[|s| - 1]];
    }
  }

  /**
   * fiftyFiftyJoker on question `id`: the first correct answer and the
   * wrong answer `skip` selects, in the order `correctFirst` selects.
   * Without a correct answer findFirst().orElseThrow() fails; without a
   * wrong answer Random.nextInt(0) does.
   */
  function FiftyFifty(qs: seq<Question>, table: seq<Answer>, id: int, skip: nat, correctFirst: bool): (r: Result<QuizQuestionDTO>)
    ensures QuestionById(qs, id).None? ==> r == Err(NotFound(QuestionEntity))
    ensures QuestionById(qs, id).Some? && !HasCorrect(AnswersOf(table, id)) ==> r == Err(NoSuchElement)
    ensures QuestionById(qs, id).Some? && HasCorrect(AnswersOf(table, id)) && Wrongs(AnswersOf(table, id)) == [] ==> r == Err(IllegalArgument)
    ensures QuestionById(qs, id).Some? && HasCorrect(AnswersOf(table, id)) && Wrongs(AnswersOf(table, id)) != [] ==> r.Ok?
  {
    match QuestionById(qs, id)
    case None => Err(NotFound(QuestionEntity))
    case Some(q) =>
      var answers := AnswersOf(table, q.id);
      match FirstCorrectIndex(answers)
      case None => Err(NoSuchElement)
      case Some(k) =>
        var wrongs := Wrongs(answers);
        if |wrongs| == 0 then Err(IllegalArgument)
        else
          var pair := if correctFirst then [answers[k], wrongs[skip % |wrongs|]] else [wrongs[skip % |wrongs|], answers[k]];
          Ok(QuestionToQuizQuestionDTO(Some(q), Some(QuizAnswers(pair))).value)
  }

  lemma QuizAnswersOfPair(x: Answer, y: Answer)
    ensures QuizAnswers([x, y]) == [QuizAnswer(x), QuizAnswer(y)]
  {
    var r := QuizAnswers([x, y]);
    assert r[0] == QuizAnswer(x) && r[1] == QuizAnswer(y);
  }

  /**
   * A joker shows the question and exactly two answers: the first correct
   * answer and one wrong answer of the question, correct one first exactly
   * when `correctFirst`. With unique answer ids the two shown ids differ.
   */
  lemma FiftyFiftyContents(qs: seq<Question>, table: seq<Answer>, id: int, skip: nat, correctFirst: bool)
    requires FiftyFifty(qs, table, id, skip, correctFirst).Ok?
    ensures var r := FiftyFifty(qs, table, id, skip, correctFirst).value;
            var q := QuestionById(qs, id).value;
            var answers := AnswersOf(table, id);
            var c := answers[FirstCorrectIndex(answers).value];
            var w := Wrongs(answers)[skip % |Wrongs(answers)|];
            && r.id == Some(id) && r.question == Some(q.text) && r.difficulty == Some(q.difficulty) && r.topic == Some(q.topic)
            && c in answers && c.correct
            && w in answers && !w.correct
            && r.answers == Some(if correctFirst then [QuizAnswer(c), QuizAnswer(w)] else [QuizAnswer(w), QuizAnswer(c)])
            && (UniqueIds(table) ==> r.answers.value[0].id != r.answers.value[1].id)
  {
    var answers := AnswersOf(table, id);
    var c := answers[FirstCorrectIndex(answers).value];
    var wrongs := Wrongs(answers);
    var w := wrongs[skip % |wrongs|];
    WrongsMembers(answers, w);
    QuizAnswersOfPair(c, w);
    QuizAnswersOfPair(w, c);
    if UniqueIds(table) {
      AnswersOfMembers(table, id, c);
      AnswersOfMembers(table, id, w);
      var i :| 0 <= i < |table| && table[i] == c;
      var j :| 0 <= j < |table| && table[j] == w;
      assert i != j;
    }
  }

  // ---------------------------------------------------------------------------
  // updateQuestion

  /** The fields of an update request; null fields leave the stored ones as they are. */
  datatype QuestionDetails = QuestionDetails(text: Option<string>, info: Option<string>, difficulty: Option<Difficulty>, topic: Option<Topic>)

  /**
   * The question as updateQuestion rewrites it: the topic is replaced only
   * when the request names a topic with a different id.
   */
  function UpdatedQuestion(q: Question, details: QuestionDetails): (u: Question)
    ensures u.id == q.id
    ensures u.text == (if details.text.Some? then details.text.value else q.text)
    ensures u.info == (if details.info.Some? then details.info.value else q.info)
    ensures u.difficulty == (if details.difficulty.Some? then details.difficulty.value else q.difficulty)
    ensures u.topic == (if details.topic.Some? && details.topic.value.id != q.topic.id then details.topic.value else q.topic)
  {
    var q1 := if details.text.Some? then q.(text := details.text.value) else q;
    var q2 := if details.info.Some? then q1.(info := details.info.value) else q1;
    var q3 := if details.difficulty.Some? then q2.(difficulty := details.difficulty.value) else q2;
    if details.topic.Some? && details.topic.value.id != q.topic.id then q3.(topic := details.topic.value) else q3
  }

  /**
   * After an update the question belongs to the topic the request names
   * (or keeps its topic); a request naming the current topic's id, however
   * its other fields read, keeps the stored topic row. An empty request
   * changes nothing, and applying a request twice equals applying it once.
   */
  lemma UpdatedQuestionProperties(q: Question, details: QuestionDetails)
    ensures UpdatedQuestion(q, details).topic.id == (if details.topic.Some? then details.topic.value.id else q.topic.id)
    ensures details.topic.Some? && details.topic.value.id == q.topic.id ==> UpdatedQuestion(q, details).topic == q.topic
    ensures UpdatedQuestion(q, QuestionDetails(None, None, None, None)) == q
    ensures UpdatedQuestion(UpdatedQuestion(q, details), details) == UpdatedQuestion(q, details)
  {
  }

  /** No two questions share an id. */
  ghost predicate UniqueQuestionIds(qs: seq<Question>)
  {
    forall i, j :: 0 <= i < j < |qs| ==> qs[i].id != qs[j].id
  }

  lemma RemoveKeepsQuestionIdsUnique(qs: seq<Question>, i: nat)
    requires i < |qs| && UniqueQuestionIds(qs)
    ensures UniqueQuestionIds(qs[..i] + qs[i + 1..])
  {
    var t := qs[..i] + qs[i + 1..];
    assert forall k :: 0 <= k < |t| ==> t[k] == qs[if k < i then k else k + 1];
  }

  // ---------------------------------------------------------------------------
  // The service

  /**
   * The question served by getQuizQuestion: its answers copied into a
   * fresh list, shuffled, and mapped without their correctness.
   */
  method ServeQuestion(q: Question, answers: seq<Answer>, keys: seq<nat>)
    returns (dto: QuizQuestionDTO, ghost order: seq<Answer>)
    ensures multiset(order) == multiset(answers)
    ensures dto == QuizQuestionDTO(Some(q.id), Some(q.text), Some(q.difficulty), Some(q.topic), Some(QuizAnswers(order)))
  {
    var shuffled := new Answer[|answers|](i requires 0 <= i < |answers| => answers[i]);
    assert shuffled[..] == answers;
    ShuffleAnswers(shuffled, keys);
    order := shuffled[..];
    var mapped := QuestionToQuizQuestionDTO(Some(q), Some(QuizAnswers(shuffled[..])));
    dto := mapped.value;
  }

  class QuestionService {
    /** The question table, in insertion order. */
    var questions: seq<Question>
    const topicRepository: TopicRepository
    const answerService: AnswerService
    const highscoreService: HighscoreService

    ghost predicate Valid()
      reads this, topicRepository, answerService, highscoreService
    {
      && UniqueQuestionIds(questions)
      && topicRepository.Valid()
      && answerService.Valid()
      && highscoreService.Valid()
    }

    /** A service over an empty question table and the given collaborators. */
    constructor (topics: TopicRepository, answers: AnswerService, highscores: HighscoreService)
      requires topics.Valid() && answers.Valid() && highscores.Valid()
      ensures Valid() && questions == []
      ensures topicRepository == topics && answerService == answers && highscoreService == highscores
    {
      questions := [];
      topicRepository := topics;
      answerService := answers;
      highscoreService := highscores;
    }

    /** getQuestionsByTopicIdAndDifficulty */
    function GetQuestionsByTopicIdAndDifficulty(topicId: int, difficulty: Difficulty): seq<Question>
      reads this
    {
      QuestionsOf(questions, topicId, difficulty)
    }

    /** getQuestionsByTopicId */
    function GetQuestionsByTopicId(topicId: int): seq<Question>
      reads this
    {
      QuestionsOfTopic(questions, topicId)
    }

    /**
     * getQuizQuestion: fails without a topic or difficulty, or when the
     * pair has no questions at all; otherwise drops the questions with
     * fewer than 4 answers and the excluded ones. With none left it records
     * the player's highscore and returns null (Ok(None)); with some left it
     * serves the one `pick` selects, with its answers in shuffled order and
     * without their correctness.
     */
    method GetQuizQuestion(topicId: Option<int>, difficulty: Option<Difficulty>, excludeIds: seq<int>,
                           playerName: string, score: int, pick: nat, keys: seq<nat>)
      returns (r: Result<Option<QuizQuestionDTO>>, ghost order: seq<Answer>)
      requires Valid()
      modifies highscoreService
      ensures Valid()
      ensures topicId.None? || difficulty.None? ==> r == Err(MissingArgument) && unchanged(highscoreService)
      ensures topicId.Some? && difficulty.Some? ==>
                var candidates := QuestionsOf(questions, topicId.value, difficulty.value);
                var remaining := Remaining(questions, answerService.answers, topicId.value, difficulty.value, excludeIds);
                var topic := topicRepository.FindById(topicId.value);
                && (candidates == [] ==> r == Err(NoQuestions) && unchanged(highscoreService))
                && (candidates != [] && remaining == [] && topic.None? ==>
                      r == Err(NotFound(TopicEntity)) && unchanged(highscoreService))
                && (candidates != [] && remaining == [] && topic.Some? ==>
                      && r == Ok(None)
                      && highscoreService.highscores == old(highscoreService.highscores) +
                           [Highscore(old(highscoreService.nextId), playerName, score, difficulty.value, topic.value)]
                      && highscoreService.nextId == old(highscoreService.nextId) + 1)
                && (remaining != [] ==>
                      var q := remaining[pick % |remaining|];
                      && multiset(order) == multiset(AnswersOf(answerService.answers, q.id))
                      && r == Ok(Some(QuizQuestionDTO(Some(q.id), Some(q.text), Some(q.difficulty), Some(q.topic), Some(QuizAnswers(order)))))
                      && unchanged(highscoreService))
    {
      order := [];
      if topicId.None? || difficulty.None? {
        return Err(MissingArgument), order;
      }
      var candidates := GetQuestionsByTopicIdAndDifficulty(topicId.value, difficulty.value);
      if candidates == [] {
        return Err(NoQuestions), order;
      }
      var playable := RemoveUnplayable(candidates, answerService.answers);
      var remaining := RemoveExcluded(playable, excludeIds);
      if remaining == [] {
        var topic := topicRepository.FindById(topicId.value);
        if topic.None? {
          return Err(NotFound(TopicEntity)), order;
        }
        var _ := highscoreService.CreateHighscore(Highscore(0, playerName, score, difficulty.value, topic.value));
        return Ok(None), order;
      }
      var q := remaining[pick % |remaining|];
      var answers := answerService.GetAnswersByQuestion(q.id);
      var dto;
      dto, order := ServeQuestion(q, answers, keys);
      return Ok(Some(dto)), order;
    }

    /**
     * checkCorrectAnswer: the verdict of Verdict; exactly when it is a
     * verdict of "wrong" the player's highscore is recorded, with the
     * question's difficulty and topic.
     */
    method CheckCorrectAnswer(id: int, submission: QuizCorrectAnswerDTO) returns (r: Result<CorrectQuestionDTO>)
      requires Valid()
      modifies highscoreService
      ensures Valid()
      ensures r == Verdict(questions, answerService.answers, id, submission)
      ensures r.Ok? && !r.value.correct ==>
                var q := QuestionById(questions, id).value;
                && highscoreService.highscores == old(highscoreService.highscores) +
                     [Highscore(old(highscoreService.nextId), submission.playerName.value, submission.score, q.difficulty, q.topic)]
                && highscoreService.nextId == old(highscoreService.nextId) + 1
      ensures !(r.Ok? && !r.value.correct) ==> unchanged(highscoreService)
    {
      if submission.answerId.None? || submission.playerName.None? {
        return Err(MissingArgument);
      }
      var question := QuestionById(questions, id);
      if question.None? {
        return Err(NotFound(QuestionEntity));
      }
      var q := question.value;
      var answers := answerService.GetAnswersByQuestion(q.id);
      var answerId := submission.answerId.value;
      if answerId != 0 && !HasAnswerId(answers, answerId) {
        return Err(NotFound(AnswerEntity));
      }
      var k := FirstCorrectIndex(answers);
      if k.None? {
        return Err(NoSuchElement);
      }
      var correctAnswer := answers[k.value];
      var correct := correctAnswer.id == answerId;
      var dto := QuestionToCorrectQuestionDTO(Some(q), correct, Some(correctAnswer));
      if !correct {
        var _ := highscoreService.CreateHighscore(Highscore(0, submission.playerName.value, submission.score, q.difficulty, q.topic));
      }
      return Ok(dto.value);
    }

    /** fiftyFiftyJoker: reads the tables and changes nothing. */
    function FiftyFiftyJoker(id: int, skip: nat, correctFirst: bool): Result<QuizQuestionDTO>
      reads this, answerService
    {
      FiftyFifty(questions, answerService.answers, id, skip, correctFirst)
    }

    /**
     * updateQuestion: "Question not found" for an unknown id, otherwise the
     * row is rewritten field by field and every other row stays.
     */
    method UpdateQuestion(id: int, details: QuestionDetails) returns (r: Result<Question>)
      requires Valid()
      modifies this
      ensures Valid()
      ensures FindQuestionIndex(old(questions), id).None? ==> r == Err(NotFound(QuestionEntity)) && questions == old(questions)
      ensures FindQuestionIndex(old(questions), id).Some? ==>
                var i := FindQuestionIndex(old(questions), id).value;
                r == Ok(UpdatedQuestion(old(questions)[i], details)) && questions == old(questions)[i := r.value]
    {
      var k := FindQuestionIndex(questions, id);
      if k.None? {
        return Err(NotFound(QuestionEntity));
      }
      var q := questions[k.value];
      if details.text.Some? {
        q := q.(text := details.text.value);
      }
      if details.info.Some? {
        q := q.(info := details.info.value);
      }
      if details.difficulty.Some? {
        q := q.(difficulty := details.difficulty.value);
      }
      if details.topic.Some? && details.topic.value.id != questions[k.value].topic.id {
        q := q.(topic := details.topic.value);
      }
      questions := questions[k.value := q];
      return Ok(q);
    }

    /**
     * deleteQuestion: removes the row with the given id, or fails with
     * "Question not found" and leaves the table as it was.
     */
    method DeleteQuestion(id: int) returns (r: Outcome)
      requires Valid()
      modifies this
      ensures Valid()
      ensures FindQuestionIndex(old(questions), id).None? ==> r == Fail(NotFound(QuestionEntity)) && questions == old(questions)
      ensures FindQuestionIndex(old(questions), id).Some? ==>
                var i := FindQuestionIndex(old(questions), id).value;
                r == Done && questions == old(questions)[..i] + old(questions)[i + 1..]
    {
      var k := FindQuestionIndex(questions, id);
      if k.None? {
        return Fail(NotFound(QuestionEntity));
      }
      RemoveKeepsQuestionIdsUnique(questions, k.value);
      questions := questions[..k.value] + questions[k.value + 1..];
      return Done;
    }
  }
}

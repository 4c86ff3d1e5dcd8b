/**
 * The topic service: the topic list the start page shows, where each topic
 * carries the difficulties it can be played at, and the update and delete
 * of a topic row.
 */
module Topics {
  import opened Entities
  import opened Answers
  import opened Questions
  import opened TopicStore

  // ---------------------------------------------------------------------------
  // The difficulties of a topic

  /** map(Question::getDifficulty) */
  function Difficulties(qs: seq<Question>): (r: seq<Difficulty>)
    ensures |r| == |qs| && forall i :: 0 <= i < |qs| ==> r[i] == qs[i].difficulty
  {
    seq(|qs|, i requires 0 <= i < |qs| => qs[i].difficulty)
  }

  /** distinct(): each value once, at the place it first occurs. */
  function Distinct(s: seq<Difficulty>): seq<Difficulty>
  {
    if s == [] then []
    else Distinct(s[..|s| - 1]) + (if s[|s| - 1] in s[..|s| - 1] then [] else [s[|s| - 1]])
  }

  /** The position of the first occurrence of x in s. */
  function FirstIndex(s: seq<Difficulty>, x: Difficulty): (r: nat)
    requires x in s
    ensures r < |s| && s[r] == x && x !in s[..r]
  {
    var init := s[..|s| - 1];
    if x in init then
      var k := FirstIndex(init, x);
      assert s[..k] == init[..k];
      k
    else |s| - 1
  }

  /** No value occurs twice. */
  predicate NoDuplicates(s: seq<Difficulty>)
  {
    forall i, j :: 0 <= i < j < |s| ==> s[i] != s[j]
  }

  /** The values of r occur in s, and in r in the order of their first occurrences in s. */
  predicate InFirstOccurrenceOrder(r: seq<Difficulty>, s: seq<Difficulty>)
  {
    forall i, j :: 0 <= i < j < |r| ==> r[i] in s && r[j] in s && FirstIndex(s, r[i]) < FirstIndex(s, r[j])
  }

  lemma {:induction false} DistinctMembers(s: seq<Difficulty>, x: Difficulty)
    ensures x in Distinct(s) <==> x in s
  {
    if s != [] {
      var init := s[..|s| - 1];
      DistinctMembers(init, x);
      DistinctMembers(init, s[|s| - 1]);
      assert s == init + [s[|s| - 1]];
    }
  }

  lemma {:induction false} DistinctNoDuplicates(s: seq<Difficulty>)
    ensures NoDuplicates(Distinct(s))
  {
    if s != [] {
      var init := s[..|s| - 1];
      DistinctNoDuplicates(init);
      DistinctMembers(init, s[|s| - 1]);
    }
  }

  /**
   * The distinct values come in the order of their first occurrences in
   * the input.
   */
  lemma {:induction false} DistinctKeepsFirstOccurrenceOrder(s: seq<Difficulty>)
    ensures InFirstOccurrenceOrder(Distinct(s), s)
  {
    if s != [] {
      var init := s[..|s| - 1];
      var last := s[|s| - 1];
      var r := Distinct(s);
      var d := Distinct(init);
      DistinctKeepsFirstOccurrenceOrder(init);
      forall x | x in d
        ensures x in init && FirstIndex(s, x) == FirstIndex(init, x)
      {
        DistinctMembers(init, x);
      }
      if last !in init {
        forall i | 0 <= i < |d|
          ensures d[i] in s && FirstIndex(s, d[i]) < FirstIndex(s, last)
        {
          assert d[i] in d;
        }
      }
      forall i, j | 0 <= i < j < |r|
        ensures r[i] in s && r[j] in s && FirstIndex(s, r[i]) < FirstIndex(s, r[j])
      {
        assert r[i] == d[i] && r[i] in d;
        if j < |d| {
          assert r[j] == d[j] && r[j] in d;
          assert InFirstOccurrenceOrder(d, init);
        } else {
          assert r == d + [last] && last !in init;
          assert r[j] == last;
        }
      }
    }
  }

  /** Without duplicates there are at most as many values as Difficulty has: 3. */
  lemma AtMostThree(s: seq<Difficulty>)
    requires NoDuplicates(s)
    ensures |s| <= 3
  {
    var seen := set i | 0 <= i < |s| :: Ordinal(s[i]);
    var all: set<nat> := {0, 1, 2};
    assert seen <= all;
    assert all == seen + (all - seen);
    SetCardinality(s);
  }

  /** Different positions of a list without duplicates have different ordinals. */
  lemma SetCardinality(s: seq<Difficulty>)
    requires NoDuplicates(s)
    ensures |set i | 0 <= i < |s| :: Ordinal(s[i])| == |s|
  {
    if s != [] {
      var init := s[..|s| - 1];
      SetCardinality(init);
      var a := set i | 0 <= i < |init| :: Ordinal(init[i]);
      var b := set i | 0 <= i < |s| :: Ordinal(s[i]);
      assert b == a + {Ordinal(s[|s| - 1])};
      assert Ordinal(s[|s| - 1]) !in a;
    }
  }

  /**
   * The difficulties getAllTopics lists for a topic: those of its questions
   * with at least 4 answers, each once, in the order the first such
   * question of each difficulty is stored.
   */
  function EligibleDifficulties(qs: seq<Question>, table: seq<Answer>, topicId: int): seq<Difficulty>
  {
    Distinct(Difficulties(KeepPlayable(QuestionsOfTopic(qs, topicId), table)))
  }

  /**
   * A difficulty is listed for a topic exactly when a question of that
   * topic and difficulty has at least 4 answers, that is exactly when
   * getQuizQuestion, asked for that topic and difficulty with nothing
   * excluded, serves a question. No difficulty is listed twice, so at most
   * three are listed.
   */
  lemma EligibleDifficultiesMeaning(qs: seq<Question>, table: seq<Answer>, topicId: int, d: Difficulty)
    ensures d in EligibleDifficulties(qs, table, topicId) <==> Remaining(qs, table, topicId, d, []) != []
    ensures NoDuplicates(EligibleDifficulties(qs, table, topicId))
    ensures |EligibleDifficulties(qs, table, topicId)| <= 3
  {
    var playable := KeepPlayable(QuestionsOfTopic(qs, topicId), table);
    var ds := Difficulties(playable);
    DistinctMembers(ds, d);
    DistinctNoDuplicates(ds);
    AtMostThree(Distinct(ds));
    var rem := Remaining(qs, table, topicId, d, []);
    if d in ds {
      var i :| 0 <= i < |ds| && ds[i] == d;
      var q := playable[i];
      assert q in playable;
      KeepPlayableMembers(QuestionsOfTopic(qs, topicId), table, q);
      QuestionsOfTopicMembers(qs, topicId, q);
      RemainingMembers(qs, table, topicId, d, [], q);
    }
    if rem != [] {
      var q := rem[0];
      RemainingMembers(qs, table, topicId, d, [], q);
      QuestionsOfTopicMembers(qs, topicId, q);
      KeepPlayableMembers(QuestionsOfTopic(qs, topicId), table, q);
      var i :| 0 <= i < |playable| && playable[i] == q;
      assert ds[i] == d;
    }
  }

  // ---------------------------------------------------------------------------
  // updateTopic

  /** The topic as updateTopic rewrites it; null fields leave the stored ones as they are. */
  function UpdatedTopic(t: Topic, name: Option<string>, description: Option<string>): (u: Topic)
    ensures u.id == t.id
    ensures u.name == (if name.Some? then name.value else t.name)
    ensures u.description == (if description.Some? then description.value else t.description)
  {
    var t1 := if name.Some? then t.(name := name.value) else t;
    if description.Some? then t1.(description := description.value) else t1
  }

  /** An empty request changes nothing, and applying a request twice equals applying it once. */
  lemma UpdatedTopicProperties(t: Topic, name: Option<string>, description: Option<string>)
    ensures UpdatedTopic(t, None, None) == t
    ensures UpdatedTopic(UpdatedTopic(t, name, description), name, description) == UpdatedTopic(t, name, description)
    ensures name.Some? && description.Some? ==> UpdatedTopic(t, name, description) == Topic(t.id, name.value, description.value)
  {
  }

  lemma RemoveKeepsTopicIdsUnique(topics: seq<Topic>, i: nat)
    requires i < |topics| && UniqueTopicIds(topics)
    ensures UniqueTopicIds(topics[..i] + topics[i + 1..])
  {
    var t := topics[..i] + topics[i + 1..];
    assert forall k :: 0 <= k < |t| ==> t[k] == topics[if k < i then k else k + 1];
  }

  // ---------------------------------------------------------------------------
  // The service

  class TopicService {
    const topicRepository: TopicRepository
    const questionService: QuestionService
    const answerService: AnswerService

    ghost predicate Valid()
      reads this, topicRepository
    {
      topicRepository.Valid()
    }

    /** A service over the given repository and services. */
    constructor (topics: TopicRepository, questions: QuestionService, answers: AnswerService)
      requires topics.Valid()
      ensures Valid()
      ensures topicRepository == topics && questionService == questions && answerService == answers
    {
      topicRepository := topics;
      questionService := questions;
      answerService := answers;
    }

    /**
     * getAllTopics: one entry per stored topic, in table order, each with
     * the difficulties it can be played at. Nothing is changed.
     */
    method GetAllTopics() returns (dtos: seq<TopicDTO>)
      ensures |dtos| == |topicRepository.topics|
      ensures forall i :: 0 <= i < |dtos| ==>
                var t := topicRepository.topics[i];
                dtos[i] == TopicDTO(t.id, t.name, t.description,
                                    EligibleDifficulties(questionService.questions, answerService.answers, t.id))
    {
      var topics := topicRepository.topics;
      dtos := [];
      for i := 0 to |topics|
        invariant |dtos| == i
        invariant forall k :: 0 <= k < i ==>
                    dtos[k] == TopicDTO(topics[k].id, topics[k].name, topics[k].description,
                                        EligibleDifficulties(questionService.questions, answerService.answers, topics[k].id))
      {
        var topic := topics[i];
        var questions := questionService.GetQuestionsByTopicId(topic.id);
        questions := RemoveUnplayable(questions, answerService.answers);
        var difficulties := Distinct(Difficulties(questions));
        dtos := dtos + [TopicDTO(topic.id, topic.name, topic.description, difficulties)];
      }
    }

    /**
     * updateTopic: "Topic not found" for an unknown id, otherwise the row is
     * rewritten field by field and every other row stays.
     */
    method UpdateTopic(id: int, name: Option<string>, description: Option<string>) returns (r: Result<Topic>)
      requires Valid()
      modifies topicRepository
      ensures Valid()
      ensures FindTopicIndex(old(topicRepository.topics), id).None? ==>
                r == Err(NotFound(TopicEntity)) && topicRepository.topics == old(topicRepository.topics)
      ensures FindTopicIndex(old(topicRepository.topics), id).Some? ==>
                var i := FindTopicIndex(old(topicRepository.topics), id).value;
                && r == Ok(UpdatedTopic(old(topicRepository.topics)[i], name, description))
                && topicRepository.topics == old(topicRepository.topics)[i := r.value]
    {
      var k := FindTopicIndex(topicRepository.topics, id);
      if k.None? {
        return Err(NotFound(TopicEntity));
      }
      var topic := topicRepository.topics[k.value];
      if name.Some? {
        topic := topic.(name := name.value);
      }
      if description.Some? {
        topic := topic.(description := description.value);
      }
      topicRepository.topics := topicRepository.topics[k.value := topic];
      return Ok(topic);
    }

    /**
     * deleteTopic: removes the row with the given id, or fails with "Topic
     * not found" and leaves the table as it was.
     */
    method DeleteTopic(id: int) returns (r: Outcome)
      requires Valid()
      modifies topicRepository
      ensures Valid()
      ensures FindTopicIndex(old(topicRepository.topics), id).None? ==>
                r == Fail(NotFound(TopicEntity)) && topicRepository.topics == old(topicRepository.topics)
      ensures FindTopicIndex(old(topicRepository.topics), id).Some? ==>
                var i := FindTopicIndex(old(topicRepository.topics), id).value;
                r == Done && topicRepository.topics == old(topicRepository.topics)[..i] + old(topicRepository.topics)[i + 1..]
    {
      var k := FindTopicIndex(topicRepository.topics, id);
      if k.None? {
        return Fail(NotFound(TopicEntity));
      }
      RemoveKeepsTopicIdsUnique(topicRepository.topics, k.value);
      topicRepository.topics := topicRepository.topics[..k.value] + topicRepository.topics[k.value + 1..];
      return Done;
    }
  }
}

/**
 * The topic table, shared by the question service (which looks topics up
 * when it records a highscore) and the topic service (which lists, updates
 * and deletes them).
 */
module TopicStore {
  import opened Entities

  /** findById: the position of the topic with the given id. */
  function FindTopicIndex(topics: seq<Topic>, id: int): (r: Option<nat>)
    ensures r.Some? ==> r.value < |topics| && topics[r.value].id == id
    ensures r.None? <==> forall i :: 0 <= i < |topics| ==> topics[i].id != id
  {
    if topics == [] then None
    else if topics[0].id == id then Some(0)
    else
      match FindTopicIndex(topics[1..], id)
      case None => None
      case Some(k) => Some(k + 1)
  }

  /** No two topics share an id. */
  ghost predicate UniqueTopicIds(topics: seq<Topic>)
  {
    forall i, j :: 0 <= i < j < |topics| ==> topics[i].id != topics[j].id
  }

  /** With unique ids, the row findById finds is the only row with that id. */
  lemma FindTopicIndexUnique(topics: seq<Topic>, id: int, i: nat)
    requires UniqueTopicIds(topics) && i < |topics| && topics[i].id == id
    ensures FindTopicIndex(topics, id) == Some(i)
  {
    var k := FindTopicIndex(topics, id);
    assert k.Some?;
    assert !(k.value < i) && !(i < k.value);
  }

  class TopicRepository {
    /** The topic table, in insertion order. */
    var topics: seq<Topic>

    ghost predicate Valid()
      reads this
    {
      UniqueTopicIds(topics)
    }

    /** A repository over an empty topic table. */
    constructor ()
      ensures Valid() && topics == []
    {
      topics := [];
    }

    /** findById */
    function FindById(id: int): (r: Option<Topic>)
      reads this
      ensures r.Some? <==> exists i :: 0 <= i < |topics| && topics[i].id == id
      ensures r.Some? ==> r.value in topics && r.value.id == id
    {
      var k := FindTopicIndex(topics, id);
      if k.Some? then Some(topics[k.value]) else None
    }
  }
}

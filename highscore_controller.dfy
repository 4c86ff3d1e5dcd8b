/**
 * The highscore listing endpoint: choose the highscores (all of them, or
 * those of one topic at one difficulty), sort them, then cut the sorted
 * list to the requested length.
 */
module HighscoreListing {
  import opened Entities
  import opened Highscores

  /** The highscores the filter parameters select; exactly one filter is a bad request. */
  function Selected(hs: seq<Highscore>, topicId: Option<int>, difficulty: Option<Difficulty>): Result<seq<Highscore>>
  {
    if topicId.Some? && difficulty.Some? then Ok(OfTopicAndDifficulty(hs, topicId.value, difficulty.value))
    else if topicId.Some? || difficulty.Some? then Err(BadRequest)
    else Ok(hs)
  }

  /** A request parameter with a default value. */
  function OrDefault<T>(o: Option<T>, default: T): T
  {
    if o.Some? then o.value else default
  }

  /**
   * getAllHighscores: select, sort (by ID, ascending, unless asked
   * otherwise), and apply the limit when one is given.
   */
  function Listing(hs: seq<Highscore>, topicId: Option<int>, difficulty: Option<Difficulty>,
                   sortBy: Option<SortBy>, sortDir: Option<SortDir>, limit: Option<int>): Result<seq<Highscore>>
  {
    var selected := Selected(hs, topicId, difficulty);
    if selected.Err? then Err(selected.error)
    else
      var sorted := SortSpec(selected.value, OrDefault(sortDir, Asc), OrDefault(sortBy, ById));
      if limit.Some? then LimitHighscores(sorted, limit.value) else Ok(sorted)
  }

  /** Exactly one filter given: a bad request, whatever the other parameters. */
  lemma OneFilterIsBadRequest(hs: seq<Highscore>, topicId: Option<int>, difficulty: Option<Difficulty>,
                              sortBy: Option<SortBy>, sortDir: Option<SortDir>, limit: Option<int>)
    ensures Listing(hs, topicId, difficulty, sortBy, sortDir, limit).Err? &&
            Listing(hs, topicId, difficulty, sortBy, sortDir, limit).error == BadRequest
            <==> topicId.Some? != difficulty.Some?
  {
  }

  /** Sorting keeps a list's prefixes sorted. */
  lemma SortedPrefix(s: seq<Highscore>, n: nat, dir: SortDir, field: SortBy)
    requires n <= |s| && Sorted(s, dir, field)
    ensures Sorted(s[..n], dir, field)
  {
    assert forall i :: 0 <= i < n ==> s[..n][i] == s[i];
  }

  /**
   * A successful listing is the first min(limit, n) elements of the sorted
   * selection (all of it without a limit); it is sorted by the requested
   * key and direction, and every listed highscore was stored and matches
   * both filters when they are given.
   */
  lemma ListingContents(hs: seq<Highscore>, topicId: Option<int>, difficulty: Option<Difficulty>,
                        sortBy: Option<SortBy>, sortDir: Option<SortDir>, limit: Option<int>)
    requires Listing(hs, topicId, difficulty, sortBy, sortDir, limit).Ok?
    ensures var r := Listing(hs, topicId, difficulty, sortBy, sortDir, limit).value;
            var selected := Selected(hs, topicId, difficulty).value;
            var dir, field := OrDefault(sortDir, Asc), OrDefault(sortBy, ById);
            && r <= SortSpec(selected, dir, field)
            && |r| == (if limit.Some? && limit.value < |selected| then limit.value else |selected|)
            && Sorted(r, dir, field)
            && multiset(r) <= multiset(selected)
            && (forall h :: h in r ==> h in hs)
            && (topicId.Some? ==> forall h :: h in r ==> h.topic.id == topicId.value && h.difficulty == difficulty.value)
  {
    var r := Listing(hs, topicId, difficulty, sortBy, sortDir, limit).value;
    var selected := Selected(hs, topicId, difficulty).value;
    var dir, field := OrDefault(sortDir, Asc), OrDefault(sortBy, ById);
    var sorted := SortSpec(selected, dir, field);
    SortSpecPermutes(selected, dir, field);
    SortSpecSorted(selected, dir, field);
    assert sorted[..|r|] == r;
    SortedPrefix(sorted, |r|, dir, field);
    assert sorted == r + sorted[|r|..];
    assert multiset(sorted) == multiset(r) + multiset(sorted[|r|..]);
    forall h | h in r ensures h in hs && (topicId.Some? ==> h.topic.id == topicId.value && h.difficulty == difficulty.value) {
      assert h in multiset(selected);
      if topicId.Some? {
        OfTopicAndDifficultyMembers(hs, topicId.value, difficulty.value, h);
      }
    }
  }

  /** Without a limit the listing is a permutation of the selection. */
  lemma NoLimitKeepsAll(hs: seq<Highscore>, topicId: Option<int>, difficulty: Option<Difficulty>,
                        sortBy: Option<SortBy>, sortDir: Option<SortDir>)
    requires Selected(hs, topicId, difficulty).Ok?
    ensures Listing(hs, topicId, difficulty, sortBy, sortDir, None).Ok?
    ensures multiset(Listing(hs, topicId, difficulty, sortBy, sortDir, None).value) == multiset(Selected(hs, topicId, difficulty).value)
  {
    SortSpecPermutes(Selected(hs, topicId, difficulty).value, OrDefault(sortDir, Asc), OrDefault(sortBy, ById));
  }

  /**
   * The endpoint itself: the selection is copied into a fresh list, sorted
   * in place and cut; the stored highscores are not changed.
   */
  method GetAllHighscores(service: HighscoreService, topicId: Option<int>, difficulty: Option<Difficulty>,
                          sortBy: Option<SortBy>, sortDir: Option<SortDir>, limit: Option<int>)
    returns (r: Result<seq<Highscore>>)
    ensures r == Listing(service.highscores, topicId, difficulty, sortBy, sortDir, limit)
  {
    var selected: seq<Highscore>;
    if topicId.Some? && difficulty.Some? {
      selected := service.GetHighscoresByTopicIdAndDifficulty(topicId.value, difficulty.value);
    } else if topicId.Some? || difficulty.Some? {
      return Err(BadRequest);
    } else {
      selected := service.highscores;
    }
    var list := new Highscore[|selected|](i requires 0 <= i < |selected| => selected[i]);
    assert list[..] == selected;
    SortHighscores(list, OrDefault(sortDir, Asc), OrDefault(sortBy, ById));
    if limit.Some? {
      r := LimitHighscores(list[..], limit.value);
    } else {
      r := Ok(list[..]);
    }
  }
}

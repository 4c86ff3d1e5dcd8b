/**
 * The answer store. It keeps the answer table and checks, when an answer is
 * written, the rules a question's answer set must obey:
 *   A1  at most 4 answers,
 *   A2  at most one correct answer,
 *   A3  a question with 4 answers has a correct one.
 * createAnswer enforces all three incrementally; updateAnswer re-checks
 * A1 and A2 only; deleteAnswer checks nothing.
 */
module Answers {
  import opened Entities

  /** findByQuestion: the answers of a question, in table order. */
  function AnswersOf(table: seq<Answer>, questionId: int): (r: seq<Answer>)
    ensures |r| <= |table|
  {
    if table == [] then []
    else
      var last := table[|table| - 1];
      AnswersOf(table[..|table| - 1], questionId) + (if last.questionId == questionId then [last] else [])
  }

  /** The number of answers flagged correct. */
  function CountCorrect(s: seq<Answer>): nat
  {
    if s == [] then 0
    else CountCorrect(s[..|s| - 1]) + (if s[|s| - 1].correct then 1 else 0)
  }

  /** stream().anyMatch(Answer::isCorrect) */
  predicate HasCorrect(s: seq<Answer>)
  {
    exists i :: 0 <= i < |s| && s[i].correct
  }

  /** A1 and A2 for one question's answers. */
  predicate CapOk(s: seq<Answer>)
  {
    |s| <= 4 && CountCorrect(s) <= 1
  }

  /** A1, A2 and A3 for one question's answers. */
  predicate QuestionOk(s: seq<Answer>)
  {
    CapOk(s) && (|s| == 4 ==> CountCorrect(s) == 1)
  }

  ghost predicate TableCapOk(table: seq<Answer>)
  {
    forall q :: CapOk(AnswersOf(table, q))
  }

  ghost predicate TableOk(table: seq<Answer>)
  {
    forall q :: QuestionOk(AnswersOf(table, q))
  }

  /** No two rows of the table share an id. */
  ghost predicate UniqueIds(table: seq<Answer>)
  {
    forall i, j :: 0 <= i < j < |table| ==> table[i].id != table[j].id
  }

  /** Every id of the table is positive and below `next`, the id the table hands out next. */
  ghost predicate IdsBelow(table: seq<Answer>, next: int)
  {
    forall i :: 0 <= i < |table| ==> 1 <= table[i].id < next
  }

  /** findById: the position of the row with the given id. */
  function FindIndex(table: seq<Answer>, id: int): (r: Option<nat>)
    ensures r.Some? ==> r.value < |table| && table[r.value].id == id
    ensures r.None? <==> forall i :: 0 <= i < |table| ==> table[i].id != id
  {
    if table == [] then None
    else if table[0].id == id then Some(0)
    else
      match FindIndex(table[1..], id)
      case None => None
      case Some(k) => Some(k + 1)
  }

  /**
   * The checks createAnswer makes, in the order it makes them, against the
   * answers the target question already has.
   */
  function CreateViolation(existing: seq<Answer>, correct: bool): Option<Error>
  {
    if |existing| >= 4 then Some(TooManyAnswers)
    else if correct && HasCorrect(existing) then Some(SecondCorrectAnswer)
    else if !correct && !HasCorrect(existing) && |existing| == 3 then Some(NoCorrectAnswer)
    else None
  }

  /** The table after createAnswer is asked to store `a`. */
  function CreateStep(table: seq<Answer>, a: Answer): seq<Answer>
  {
    if CreateViolation(AnswersOf(table, a.questionId), a.correct).None? then table + [a] else table
  }

  /** The table after a series of createAnswer calls on an empty table. */
  function ReplayCreates(requests: seq<Answer>): seq<Answer>
  {
    if requests == [] then []
    else CreateStep(ReplayCreates(requests[..|requests| - 1]), requests[|requests| - 1])
  }

  // ---------------------------------------------------------------------------
  // Facts about counting and filtering

  lemma HasCorrectCount(s: seq<Answer>)
    ensures HasCorrect(s) <==> CountCorrect(s) > 0
  {
    if s != [] {
      var init := s[..|s| - 1];
      HasCorrectCount(init);
      if HasCorrect(init) {
        var i :| 0 <= i < |init| && init[i].correct;
        assert s[i].correct;
      }
      if HasCorrect(s) && !s[|s| - 1].correct {
        var i :| 0 <= i < |s| && s[i].correct;
        assert init[i].correct;
      }
    }
  }

  lemma {:induction false} CountCorrectConcat(x: seq<Answer>, y: seq<Answer>)
    ensures CountCorrect(x + y) == CountCorrect(x) + CountCorrect(y)
  {
    if y != [] {
      var init := y[..|y| - 1];
      assert (x + y)[..|x + y| - 1] == x + init;
      CountCorrectConcat(x, init);
    } else {
      assert x + y == x;
    }
  }

  lemma {:induction false} AnswersOfConcat(x: seq<Answer>, y: seq<Answer>, q: int)
    ensures AnswersOf(x + y, q) == AnswersOf(x, q) + AnswersOf(y, q)
  {
    if y != [] {
      var init := y[..|y| - 1];
      assert (x + y)[..|x + y| - 1] == x + init;
      AnswersOfConcat(x, init, q);
    } else {
      assert x + y == x;
    }
  }

  /** An answer belongs to AnswersOf(table, q) exactly when it is a row of the table for question q. */
  lemma {:induction false} AnswersOfMembers(table: seq<Answer>, q: int, a: Answer)
    ensures a in AnswersOf(table, q) <==> a in table && a.questionId == q
  {
    if table != [] {
      var init := table[..|table| - 1];
      AnswersOfMembers(init, q, a);
      assert table == init + [table[|table| - 1]];
    }
  }

  lemma AnswersOfAppend(table: seq<Answer>, a: Answer, q: int)
    ensures AnswersOf(table + [a], q) == AnswersOf(table, q) + (if a.questionId == q then [a] else [])
  {
    assert (table + [a])[..|table|] == table;
  }

  /** An answer set with no correct answer counts no correct answer. */
  lemma {:induction false} NoneCorrect(s: seq<Answer>)
    requires forall a :: a in s ==> !a.correct
    ensures CountCorrect(s) == 0
  {
    if s != [] {
      NoneCorrect(s[..|s| - 1]);
    }
  }

  /** Two different correct answers in a set make at least two correct answers. */
  lemma {:induction false} TwoCorrect(s: seq<Answer>, x: Answer, y: Answer)
    requires x in s && y in s && x != y && x.correct && y.correct
    ensures CountCorrect(s) >= 2
  {
    var init := s[..|s| - 1];
    var last := s[|s| - 1];
    if x != last && y != last {
      assert x in init && y in init;
      TwoCorrect(init, x, y);
    } else {
      var other := if x == last then y else x;
      assert other in init;
      HasCorrectCount(init);
      var i :| 0 <= i < |init| && init[i] == other;
    }
  }

  // ---------------------------------------------------------------------------
  // createAnswer keeps A1, A2 and A3

  /**
   * Given a question whose answers satisfy A1-A3, createAnswer's three
   * checks accept a new answer exactly when the enlarged set still
   * satisfies A1-A3: the checks are neither too strict nor too lax.
   */
  lemma CreateChecksAreExact(existing: seq<Answer>, a: Answer)
    requires QuestionOk(existing)
    ensures CreateViolation(existing, a.correct).None? <==> QuestionOk(existing + [a])
  {
    assert (existing + [a])[..|existing|] == existing;
    HasCorrectCount(existing);
  }

  /** A successful createAnswer keeps A1-A3 for every question of the table. */
  lemma CreateKeepsTableOk(table: seq<Answer>, a: Answer)
    requires TableOk(table)
    ensures TableOk(CreateStep(table, a))
  {
    if CreateViolation(AnswersOf(table, a.questionId), a.correct).None? {
      forall q ensures QuestionOk(AnswersOf(table + [a], q)) {
        AnswersOfAppend(table, a, q);
        assert QuestionOk(AnswersOf(table, q));
        if a.questionId == q {
          CreateChecksAreExact(AnswersOf(table, q), a);
        } else {
          assert AnswersOf(table + [a], q) == AnswersOf(table, q);
        }
      }
      assert CreateStep(table, a) == table + [a];
    }
  }

  /**
   * Starting from no answers, any series of createAnswer calls leaves every
   * question with at most 4 answers and at most one correct answer, and
   * every question with 4 answers with exactly one correct answer.
   */
  lemma {:induction false} ReplayCreatesKeepsTableOk(requests: seq<Answer>)
    ensures TableOk(ReplayCreates(requests))
  {
    if requests == [] {
      forall q ensures QuestionOk(AnswersOf([], q)) { }
    } else {
      ReplayCreatesKeepsTableOk(requests[..|requests| - 1]);
      CreateKeepsTableOk(ReplayCreates(requests[..|requests| - 1]), requests[|requests| - 1]);
    }
  }

  // ---------------------------------------------------------------------------
  // deleteAnswer keeps A1, A2 and A3

  /** Removing one row keeps A1-A3: a question loses at most one answer and never reaches 4. */
  lemma DeleteKeepsTableOk(table: seq<Answer>, i: nat)
    requires i < |table|
    requires TableOk(table)
    ensures TableOk(table[..i] + table[i + 1..])
  {
    var before, row, after := table[..i], [table[i]], table[i + 1..];
    assert table == before + row + after;
    forall q ensures QuestionOk(AnswersOf(before + after, q)) {
      AnswersOfConcat(before + row, after, q);
      AnswersOfConcat(before, row, q);
      AnswersOfConcat(before, after, q);
      var a, b, c := AnswersOf(before, q), AnswersOf(row, q), AnswersOf(after, q);
      CountCorrectConcat(a + b, c);
      CountCorrectConcat(a, b);
      CountCorrectConcat(a, c);
      assert QuestionOk(a + b + c);
    }
  }

  /** Removing row i of a table with unique ids removes exactly the rows with that row's id. */
  lemma RemoveAtMembers(table: seq<Answer>, i: nat)
    requires i < |table| && UniqueIds(table)
    ensures forall a :: a in table[..i] + table[i + 1..] <==> a in table && a.id != table[i].id
  {
    forall a ensures a in table[..i] + table[i + 1..] <==> a in table && a.id != table[i].id {
      if a in table && a.id != table[i].id {
        var j :| 0 <= j < |table| && table[j] == a;
        if j < i { assert table[..i][j] == a; } else { assert table[i + 1..][j - i - 1] == a; }
      }
      if a in table[..i] + table[i + 1..] {
        var j :| 0 <= j < |table| - 1 && (table[..i] + table[i + 1..])[j] == a;
        if j < i { assert table[j] == a; } else { assert table[j + 1] == a; }
      }
    }
  }

  /** Removing a row keeps the ids unique and within the bounds they had. */
  lemma RemoveAtKeepsIds(table: seq<Answer>, i: nat, next: int)
    requires i < |table| && UniqueIds(table) && IdsBelow(table, next)
    ensures UniqueIds(table[..i] + table[i + 1..])
    ensures IdsBelow(table[..i] + table[i + 1..], next)
  {
    var t := table[..i] + table[i + 1..];
    assert forall k :: 0 <= k < |t| ==> t[k] == table[if k < i then k else k + 1];
  }

  /** Rewriting a row without changing its id keeps the ids unique and below `next`. */
  lemma ReplaceKeepsIds(table: seq<Answer>, i: nat, u: Answer, next: int)
    requires i < |table| && u.id == table[i].id && UniqueIds(table) && IdsBelow(table, next)
    ensures UniqueIds(table[i := u]) && IdsBelow(table[i := u], next)
  {
  }

  // ---------------------------------------------------------------------------
  // updateAnswer

  /**
   * The fields of an update request: the new text (null keeps the old),
   * the new flag (a missing flag reads as false) and the new question.
   */
  datatype AnswerDetails = AnswerDetails(text: Option<string>, correct: bool, questionId: Option<int>)

  /** True when the request moves the answer to a different question. */
  predicate Moves(a: Answer, details: AnswerDetails)
  {
    details.questionId.Some? && details.questionId.value != a.questionId
  }

  /** The answer row as updateAnswer rewrites it. */
  function Updated(a: Answer, details: AnswerDetails): (u: Answer)
    ensures u.id == a.id
    ensures u.text == (if details.text.Some? then details.text.value else a.text)
    ensures u.correct == details.correct
    ensures u.questionId == (if details.questionId.Some? then details.questionId.value else a.questionId)
  {
    var withText := if details.text.Some? then a.(text := details.text.value) else a;
    var withFlag := withText.(correct := details.correct);
    if Moves(a, details) then withFlag.(questionId := details.questionId.value) else withFlag
  }

  /**
   * The checks updateAnswer makes, as written: the list it checks is the
   * stored answer list of the answer's question before the update, which
   * holds the answer's own old row, or, when the answer moves, the stored
   * list of the new question. The 4-answer cap is checked only on a move.
   */
  function UpdateViolation(table: seq<Answer>, a: Answer, details: AnswerDetails): Option<Error>
  {
    var checked := if Moves(a, details) then AnswersOf(table, details.questionId.value) else AnswersOf(table, a.questionId);
    if Moves(a, details) && |checked| >= 4 then Some(TooManyAnswers)
    else if details.correct && HasCorrect(checked) then Some(SecondCorrectAnswer)
    else None
  }

  /** Some answer of `s` other than the one with id `self` is correct. */
  predicate HasOtherCorrect(s: seq<Answer>, self: int)
  {
    exists i :: 0 <= i < |s| && s[i].correct && s[i].id != self
  }

  /**
   * The intended update check: the same as UpdateViolation except that the
   * answer being updated is not counted against itself.
   */
  function UpdateViolationExcludingSelf(table: seq<Answer>, a: Answer, details: AnswerDetails): Option<Error>
  {
    var checked := if Moves(a, details) then AnswersOf(table, details.questionId.value) else AnswersOf(table, a.questionId);
    if Moves(a, details) && |checked| >= 4 then Some(TooManyAnswers)
    else if details.correct && HasOtherCorrect(checked, a.id) then Some(SecondCorrectAnswer)
    else None
  }

  /** A table whose rows all belong to question q0 has every row under q0 and none elsewhere. */
  lemma {:induction false} AnswersOfOneQuestion(table: seq<Answer>, q0: int, q: int)
    requires forall k :: 0 <= k < |table| ==> table[k].questionId == q0
    ensures AnswersOf(table, q) == if q == q0 then table else []
  {
    if table != [] {
      var init := table[..|table| - 1];
      AnswersOfOneQuestion(init, q0, q);
      assert table == init + [table[|table| - 1]];
    }
  }

  /**
   * As written, re-saving the one correct answer of a question with a new
   * text and the flag kept true is refused, although the result would have
   * exactly one correct answer.
   */
  lemma UpdateRefusesResavingTheCorrectAnswer()
    ensures var table := [Answer(1, "Bern", true, 7), Answer(2, "Zurich", false, 7)];
            var details := AnswerDetails(Some("Bern (BE)"), true, None);
            && UpdateViolation(table, table[0], details) == Some(SecondCorrectAnswer)
            && TableOk(table[0 := Updated(table[0], details)])
  {
    var table := [Answer(1, "Bern", true, 7), Answer(2, "Zurich", false, 7)];
    var details := AnswerDetails(Some("Bern (BE)"), true, None);
    AnswersOfOneQuestion(table, 7, 7);
    assert HasCorrect(AnswersOf(table, 7)) by {
      assert AnswersOf(table, 7)[0].correct;
    }
    var u := Updated(table[0], details);
    TwoRowsOk(u, table[1], 7);
    assert table[0 := u] == [u, table[1]];
  }

  /** Two rows of one question, exactly one of them correct, satisfy A1-A3 table-wide. */
  lemma TwoRowsOk(x: Answer, y: Answer, q0: int)
    requires x.questionId == q0 && y.questionId == q0 && x.correct && !y.correct
    ensures TableOk([x, y])
  {
    var t := [x, y];
    CountCorrectConcat([x], [y]);
    Singleton(x, q0);
    Singleton(y, q0);
    assert [x] + [y] == t;
    forall q ensures QuestionOk(AnswersOf(t, q)) {
      AnswersOfOneQuestion(t, q0, q);
    }
  }

  /** Every update the as-written check accepts, the intended check accepts too. */
  lemma AsWrittenAcceptedIsAcceptedExcludingSelf(table: seq<Answer>, a: Answer, details: AnswerDetails)
    requires UpdateViolation(table, a, details).None?
    ensures UpdateViolationExcludingSelf(table, a, details).None?
  {
  }

  /**
   * The two checks disagree exactly when a correct answer is saved, the cap
   * does not refuse it, and every correct answer of the checked list carries
   * the updated answer's own id; only then is the as-written check the one
   * that refuses.
   */
  lemma UpdateChecksDiffer(table: seq<Answer>, a: Answer, details: AnswerDetails)
    ensures var checked := if Moves(a, details) then AnswersOf(table, details.questionId.value) else AnswersOf(table, a.questionId);
            UpdateViolation(table, a, details) != UpdateViolationExcludingSelf(table, a, details) <==>
              && details.correct
              && !(Moves(a, details) && |checked| >= 4)
              && HasCorrect(checked)
              && (forall k :: 0 <= k < |checked| && checked[k].correct ==> checked[k].id == a.id)
    ensures UpdateViolation(table, a, details) != UpdateViolationExcludingSelf(table, a, details) ==>
              UpdateViolation(table, a, details) == Some(SecondCorrectAnswer) &&
              UpdateViolationExcludingSelf(table, a, details).None?
  {
  }

  /** With the intended check, re-saving any answer unchanged but for its text is accepted. */
  lemma ExcludingSelfAcceptsResave(table: seq<Answer>, i: nat, text: string)
    requires i < |table|
    requires TableCapOk(table)
    ensures UpdateViolationExcludingSelf(table, table[i], AnswerDetails(Some(text), table[i].correct, None)).None?
  {
    var a := table[i];
    var s := AnswersOf(table, a.questionId);
    if a.correct && HasOtherCorrect(s, a.id) {
      var k :| 0 <= k < |s| && s[k].correct && s[k].id != a.id;
      AnswersOfMembers(table, a.questionId, a);
      TwoCorrect(s, a, s[k]);
      assert false;
    }
  }

  /** The one-row table: its filter and its count. */
  lemma Singleton(a: Answer, q: int)
    ensures AnswersOf([a], q) == if a.questionId == q then [a] else []
    ensures CountCorrect([a]) == if a.correct then 1 else 0
  {
    assert [a][..0] == [];
  }

  /** The filter of a table, and of the table with row i replaced, split around row i. */
  lemma AnswersOfAround(table: seq<Answer>, i: nat, u: Answer, q: int)
    requires i < |table|
    ensures AnswersOf(table, q) == AnswersOf(table[..i], q) + AnswersOf([table[i]], q) + AnswersOf(table[i + 1..], q)
    ensures AnswersOf(table[i := u], q) == AnswersOf(table[..i], q) + AnswersOf([u], q) + AnswersOf(table[i + 1..], q)
  {
    var before, after := table[..i], table[i + 1..];
    assert table == before + [table[i]] + after;
    assert table[i := u] == before + [u] + after;
    AnswersOfConcat(before + [table[i]], after, q);
    AnswersOfConcat(before, [table[i]], q);
    AnswersOfConcat(before + [u], after, q);
    AnswersOfConcat(before, [u], q);
  }

  lemma CountCorrect3(x: seq<Answer>, m: seq<Answer>, y: seq<Answer>)
    ensures CountCorrect(x + m + y) == CountCorrect(x) + CountCorrect(m) + CountCorrect(y)
  {
    CountCorrectConcat(x + m, y);
    CountCorrectConcat(x, m);
  }

  /**
   * When no answer of q other than row i is correct, the rows of q before
   * and after row i count no correct answer.
   */
  lemma OthersNotCorrect(table: seq<Answer>, i: nat, q: int)
    requires i < |table| && UniqueIds(table)
    requires !HasOtherCorrect(AnswersOf(table, q), table[i].id)
    ensures CountCorrect(AnswersOf(table[..i], q)) == 0
    ensures CountCorrect(AnswersOf(table[i + 1..], q)) == 0
  {
    var s := AnswersOf(table, q);
    forall b | b in AnswersOf(table[..i], q) ensures !b.correct {
      AnswersOfMembers(table[..i], q, b);
      var k :| 0 <= k < i && table[..i][k] == b;
      assert table[k] == b;
      AnswersOfMembers(table, q, b);
      var m :| 0 <= m < |s| && s[m] == b;
    }
    NoneCorrect(AnswersOf(table[..i], q));
    forall b | b in AnswersOf(table[i + 1..], q) ensures !b.correct {
      AnswersOfMembers(table[i + 1..], q, b);
      var k :| 0 <= k < |table| - i - 1 && table[i + 1..][k] == b;
      assert table[i + 1 + k] == b;
      AnswersOfMembers(table, q, b);
      var m :| 0 <= m < |s| && s[m] == b;
    }
    NoneCorrect(AnswersOf(table[i + 1..], q));
  }

  /** The intended check keeps A1 and A2 for one question q. */
  lemma ExcludingSelfKeepsCapAt(table: seq<Answer>, i: nat, details: AnswerDetails, q: int)
    requires i < |table|
    requires UniqueIds(table) && CapOk(AnswersOf(table, q))
    requires UpdateViolationExcludingSelf(table, table[i], details).None?
    ensures CapOk(AnswersOf(table[i := Updated(table[i], details)], q))
  {
    var a := table[i];
    var u := Updated(a, details);
    AnswersOfAround(table, i, u, q);
    var x, y := AnswersOf(table[..i], q), AnswersOf(table[i + 1..], q);
    Singleton(a, q);
    Singleton(u, q);
    CountCorrect3(x, AnswersOf([a], q), y);
    CountCorrect3(x, AnswersOf([u], q), y);
    if u.questionId == q && u.correct {
      var target := if Moves(a, details) then details.questionId.value else a.questionId;
      assert target == q;
      assert !HasOtherCorrect(AnswersOf(table, target), a.id);
      OthersNotCorrect(table, i, q);
    }
  }

  /**
   * An update accepted by the intended check keeps A1 and A2 for every
   * question, provided the ids of the table are unique.
   */
  lemma ExcludingSelfKeepsCap(table: seq<Answer>, i: nat, details: AnswerDetails)
    requires i < |table|
    requires UniqueIds(table) && TableCapOk(table)
    requires UpdateViolationExcludingSelf(table, table[i], details).None?
    ensures TableCapOk(table[i := Updated(table[i], details)])
  {
    var t' := table[i := Updated(table[i], details)];
    forall q ensures CapOk(AnswersOf(t', q)) {
      ExcludingSelfKeepsCapAt(table, i, details, q);
    }
  }

  /**
   * updateAnswer does not keep A3: clearing the flag of the only correct
   * answer of a complete question (a request that omits `correct`) is
   * accepted and leaves 4 answers none of which is correct.
   */
  lemma UpdateCanBreakCompleteness()
    ensures var table := [Answer(1, "a", true, 7), Answer(2, "b", false, 7), Answer(3, "c", false, 7), Answer(4, "d", false, 7)];
            var details := AnswerDetails(None, false, None);
            && TableOk(table)
            && UpdateViolation(table, table[0], details).None?
            && UpdateViolationExcludingSelf(table, table[0], details).None?
            && !TableOk(table[0 := Updated(table[0], details)])
  {
    var table := [Answer(1, "a", true, 7), Answer(2, "b", false, 7), Answer(3, "c", false, 7), Answer(4, "d", false, 7)];
    var details := AnswerDetails(None, false, None);
    CountCorrect4(table[0], table[1], table[2], table[3]);
    forall q ensures QuestionOk(AnswersOf(table, q)) {
      AnswersOfOneQuestion(table, 7, q);
    }
    AnswersOfOneQuestion(table, 7, 7);
    var t' := table[0 := Updated(table[0], details)];
    assert t' == [Answer(1, "a", false, 7), table[1], table[2], table[3]];
    AnswersOfOneQuestion(t', 7, 7);
    CountCorrect4(t'[0], t'[1], t'[2], t'[3]);
  }

  /** The correct answers among four. */
  lemma CountCorrect4(a: Answer, b: Answer, c: Answer, d: Answer)
    ensures CountCorrect([a, b, c, d]) == (if a.correct then 1 else 0) + (if b.correct then 1 else 0)
                                          + (if c.correct then 1 else 0) + (if d.correct then 1 else 0)
  {
    assert [a, b, c, d][..3] == [a, b, c];
    assert [a, b, c][..2] == [a, b];
    assert [a, b][..1] == [a];
    assert [a][..0] == [];
    assert CountCorrect([a]) == if a.correct then 1 else 0;
    assert CountCorrect([a, b]) == CountCorrect([a]) + (if b.correct then 1 else 0);
    assert CountCorrect([a, b, c]) == CountCorrect([a, b]) + (if c.correct then 1 else 0);
    assert CountCorrect([a, b, c, d]) == CountCorrect([a, b, c]) + (if d.correct then 1 else 0);
  }

  // ---------------------------------------------------------------------------
  // The service

  class AnswerService {
    /** The answer table, in insertion order. */
    var answers: seq<Answer>
    /** The id the table will give the next stored answer. */
    var nextId: int

    ghost predicate Valid()
      reads this
    {
      && nextId >= 1
      && IdsBelow(answers, nextId)
      && UniqueIds(answers)
    }

    /** A service over an empty answer table. */
    constructor ()
      ensures Valid() && answers == [] && nextId == 1
    {
      answers := [];
      nextId := 1;
    }

    /** getAnswersByQuestion */
    function GetAnswersByQuestion(questionId: int): seq<Answer>
      reads this
    {
      AnswersOf(answers, questionId)
    }

    /**
     * createAnswer: checks the question's stored answers, then stores the
     * answer under a fresh id or leaves the table as it was. A1-A3 hold
     * afterwards whenever they held before. The request is taken to carry
     * no id, so `save` inserts a new row.
     */
    method CreateAnswer(text: string, correct: bool, questionId: int) returns (r: Result<Answer>)
      requires Valid()
      modifies this
      ensures Valid()
      ensures var v := CreateViolation(AnswersOf(old(answers), questionId), correct);
              && (v.Some? ==> r == Err(v.value) && answers == old(answers) && nextId == old(nextId))
              && (v.None? ==> r == Ok(Answer(old(nextId), text, correct, questionId))
                              && answers == old(answers) + [r.value] && nextId == old(nextId) + 1)
      ensures answers == CreateStep(old(answers), Answer(old(nextId), text, correct, questionId))
      ensures forall q :: q != questionId ==> AnswersOf(answers, q) == AnswersOf(old(answers), q)
      ensures old(TableOk(answers)) ==> TableOk(answers)
    {
      var existing := AnswersOf(answers, questionId);
      if |existing| >= 4 {
        return Err(TooManyAnswers);
      }
      if correct && HasCorrect(existing) {
        return Err(SecondCorrectAnswer);
      }
      if !correct && !HasCorrect(existing) && |existing| == 3 {
        return Err(NoCorrectAnswer);
      }
      var a := Answer(nextId, text, correct, questionId);
      if TableOk(answers) {
        CreateKeepsTableOk(answers, a);
      }
      forall q | q != questionId ensures AnswersOf(answers + [a], q) == AnswersOf(answers, q) {
        AnswersOfAppend(answers, a, q);
      }
      answers := answers + [a];
      nextId := nextId + 1;
      return Ok(a);
    }

    /**
     * updateAnswer: looks the answer up, rewrites its fields and checks
     * the rewritten answer against the stored list of its question (the
     * new question if it moves); the table changes only if every check
     * passes. The second-correct-answer check leaves the answer's own old
     * row out (UpdateViolationExcludingSelf; the check as written,
     * UpdateViolation, also counts that row). It keeps A1 and A2 but not A3.
     */
    method UpdateAnswer(id: int, details: AnswerDetails) returns (r: Result<Answer>)
      requires Valid()
      modifies this
      ensures Valid() && nextId == old(nextId)
      ensures FindIndex(old(answers), id).None? ==> r == Err(NotFound(AnswerEntity)) && answers == old(answers)
      ensures FindIndex(old(answers), id).Some? ==>
                var i := FindIndex(old(answers), id).value;
                var v := UpdateViolationExcludingSelf(old(answers), old(answers)[i], details);
                && (v.Some? ==> r == Err(v.value) && answers == old(answers))
                && (v.None? ==> r == Ok(Updated(old(answers)[i], details)) && answers == old(answers)[i := r.value])
      ensures old(TableCapOk(answers)) ==> TableCapOk(answers)
    {
      var k := FindIndex(answers, id);
      if k.None? {
        return Err(NotFound(AnswerEntity));
      }
      var i := k.value;
      var answer := answers[i];
      var existing := AnswersOf(answers, answer.questionId);
      var updated := answer;
      if details.text.Some? {
        updated := updated.(text := details.text.value);
      }
      updated := updated.(correct := details.correct);
      if details.questionId.Some? && details.questionId.value != answer.questionId {
        updated := updated.(questionId := details.questionId.value);
        existing := AnswersOf(answers, updated.questionId);
        if |existing| >= 4 {
          assert UpdateViolationExcludingSelf(answers, answer, details) == Some(TooManyAnswers);
          return Err(TooManyAnswers);
        }
      }
      if updated.correct && HasOtherCorrect(existing, answer.id) {
        assert UpdateViolationExcludingSelf(answers, answer, details) == Some(SecondCorrectAnswer);
        return Err(SecondCorrectAnswer);
      }
      assert updated == Updated(answer, details);
      assert UpdateViolationExcludingSelf(answers, answer, details).None?;
      if TableCapOk(answers) {
        ExcludingSelfKeepsCap(answers, i, details);
      }
      ReplaceKeepsIds(answers, i, updated, nextId);
      answers := answers[i := updated];
      return Ok(updated);
    }

    /**
     * deleteAnswer: removes the row with the given id, so the table shrinks
     * by one, or fails with "Answer not found" and leaves it as it was.
     */
    method DeleteAnswer(id: int) returns (r: Outcome)
      requires Valid()
      modifies this
      ensures Valid() && nextId == old(nextId)
      ensures FindIndex(old(answers), id).None? ==> r == Fail(NotFound(AnswerEntity)) && answers == old(answers)
      ensures FindIndex(old(answers), id).Some? ==>
                var i := FindIndex(old(answers), id).value;
                && r == Done
                && answers == old(answers)[..i] + old(answers)[i + 1..]
                && |answers| == |old(answers)| - 1
      ensures forall a :: a in answers <==> a in old(answers) && a.id != id
      ensures old(TableOk(answers)) ==> TableOk(answers)
    {
      var k := FindIndex(answers, id);
      if k.None? {
        return Fail(NotFound(AnswerEntity));
      }
      var i := k.value;
      if TableOk(answers) {
        DeleteKeepsTableOk(answers, i);
      }
      RemoveAtMembers(answers, i);
      RemoveAtKeepsIds(answers, i, nextId);
      answers := answers[..i] + answers[i + 1..];
      return Done;
    }
  }
}

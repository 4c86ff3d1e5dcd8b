/**
 * The highscore store and the two list operations the listing endpoint
 * composes: sorting by one of five keys in either direction, and cutting
 * the sorted list to a prefix.
 */
module Highscores {
  import opened Entities

  /** The field a highscore list is sorted by. */
  datatype SortBy = ById | ByPlayerName | ByScore | ByDifficulty | ByTopic

  /** The sort direction. */
  datatype SortDir = Asc | Desc

  // ---------------------------------------------------------------------------
  // The comparator

  /** Long.compare and Integer.compare: -1, 0 or 1. */
  function CompareInts(x: int, y: int): (c: int)
    ensures c < 0 <==> x < y
    ensures c == 0 <==> x == y
    ensures -1 <= c <= 1
  {
    if x < y then -1 else if x == y then 0 else 1
  }

  /**
   * String.compareTo: the difference of the first differing characters,
   * or of the lengths when one string is a prefix of the other.
   */
  function CompareStrings(a: string, b: string): int
  {
    if a == [] || b == [] then |a| - |b|
    else if a[0] != b[0] then a[0] as int - b[0] as int
    else CompareStrings(a[1..], b[1..])
  }

  /** a and b agree on their first k characters and a is smaller right after them. */
  ghost predicate LexLessAt(a: string, b: string, k: nat)
  {
    k <= |a| && k <= |b| && a[..k] == b[..k] &&
      ((k == |a| && k < |b|) || (k < |a| && k < |b| && a[k] < b[k]))
  }

  /** a precedes b in dictionary order: a proper prefix, or smaller at the first difference. */
  ghost predicate LexLess(a: string, b: string)
  {
    exists k: nat :: LexLessAt(a, b, k)
  }

  lemma {:induction false} LexLessAtCompare(a: string, b: string, k: nat)
    requires LexLessAt(a, b, k)
    ensures CompareStrings(a, b) < 0
  {
    if k > 0 {
      assert a[0] == a[..k][0] && b[0] == b[..k][0];
      assert a[1..][..k - 1] == a[..k][1..];
      assert b[1..][..k - 1] == b[..k][1..];
      LexLessAtCompare(a[1..], b[1..], k - 1);
    }
  }

  lemma {:induction false} CompareLexWitness(a: string, b: string) returns (k: nat)
    requires CompareStrings(a, b) < 0
    ensures LexLessAt(a, b, k)
  {
    if a == [] || b == [] || a[0] != b[0] {
      k := 0;
    } else {
      var k' := CompareLexWitness(a[1..], b[1..]);
      k := k' + 1;
      assert a[..k] == [a[0]] + a[1..][..k'];
      assert b[..k] == [b[0]] + b[1..][..k'];
    }
  }

  lemma {:induction false} CompareStringsZero(a: string, b: string)
    ensures CompareStrings(a, b) == 0 <==> a == b
  {
    if a != [] && b != [] && a[0] == b[0] {
      CompareStringsZero(a[1..], b[1..]);
      assert a == [a[0]] + a[1..] && b == [b[0]] + b[1..];
    }
  }

  /** CompareStrings is negative exactly on dictionary order, and zero exactly on equal strings. */
  lemma CompareStringsMeaning(a: string, b: string)
    ensures CompareStrings(a, b) < 0 <==> LexLess(a, b)
    ensures CompareStrings(a, b) == 0 <==> a == b
  {
    if CompareStrings(a, b) < 0 {
      var k := CompareLexWitness(a, b);
    }
    if LexLess(a, b) {
      var k: nat :| LexLessAt(a, b, k);
      LexLessAtCompare(a, b, k);
    }
    CompareStringsZero(a, b);
  }

  /** Swapping the arguments of CompareStrings negates the result. */
  lemma {:induction false} CompareStringsAntisymmetric(a: string, b: string)
    ensures CompareStrings(a, b) == -CompareStrings(b, a)
  {
    if a != [] && b != [] && a[0] == b[0] {
      CompareStringsAntisymmetric(a[1..], b[1..]);
    }
  }

  /**
   * The comparator of sortHighscores before the direction is applied: ids
   * and scores numerically, names and topic names as strings, difficulties
   * by declaration order (Enum.compareTo is the difference of ordinals).
   */
  function Compare(h1: Highscore, h2: Highscore, field: SortBy): int
  {
    match field
    case ById => CompareInts(h1.id, h2.id)
    case ByPlayerName => CompareStrings(h1.playerName, h2.playerName)
    case ByScore => CompareInts(h1.score, h2.score)
    case ByDifficulty => Ordinal(h1.difficulty) - Ordinal(h2.difficulty)
    case ByTopic => CompareStrings(h1.topic.name, h2.topic.name)
  }

  /** The comparator with the direction applied: DESC negates it. */
  function DirCompare(h1: Highscore, h2: Highscore, dir: SortDir, field: SortBy): int
  {
    var c := Compare(h1, h2, field);
    if dir == Asc then c else -c
  }

  /** The value a highscore is ordered by. */
  datatype SortKey = IntKey(n: int) | StrKey(s: string)

  function KeyOf(h: Highscore, field: SortBy): SortKey
  {
    match field
    case ById => IntKey(h.id)
    case ByPlayerName => StrKey(h.playerName)
    case ByScore => IntKey(h.score)
    case ByDifficulty => IntKey(Ordinal(h.difficulty))
    case ByTopic => StrKey(h.topic.name)
  }

  /**
   * What each sort key means: ids, scores and difficulties (by declaration
   * order) compare as numbers, player and topic names in dictionary order.
   */
  lemma CompareMeaning(h1: Highscore, h2: Highscore, field: SortBy)
    ensures field == ById ==> (Compare(h1, h2, field) < 0 <==> h1.id < h2.id)
    ensures field == ByScore ==> (Compare(h1, h2, field) < 0 <==> h1.score < h2.score)
    ensures field == ByDifficulty ==> (Compare(h1, h2, field) < 0 <==> Ordinal(h1.difficulty) < Ordinal(h2.difficulty))
    ensures field == ByPlayerName ==> (Compare(h1, h2, field) < 0 <==> LexLess(h1.playerName, h2.playerName))
    ensures field == ByTopic ==> (Compare(h1, h2, field) < 0 <==> LexLess(h1.topic.name, h2.topic.name))
  {
    CompareStringsMeaning(h1.playerName, h2.playerName);
    CompareStringsMeaning(h1.topic.name, h2.topic.name);
  }

  /** The comparator, in either direction, is zero exactly on equal keys. */
  lemma DirCompareZero(h1: Highscore, h2: Highscore, dir: SortDir, field: SortBy)
    ensures DirCompare(h1, h2, dir, field) == 0 <==> KeyOf(h1, field) == KeyOf(h2, field)
  {
    CompareStringsMeaning(h1.playerName, h2.playerName);
    CompareStringsMeaning(h1.topic.name, h2.topic.name);
  }

  /** The comparator, in either direction, is antisymmetric. */
  lemma DirCompareAntisymmetric(h1: Highscore, h2: Highscore, dir: SortDir, field: SortBy)
    ensures DirCompare(h1, h2, dir, field) == -DirCompare(h2, h1, dir, field)
  {
    CompareStringsAntisymmetric(h1.playerName, h2.playerName);
    CompareStringsAntisymmetric(h1.topic.name, h2.topic.name);
  }

  // ---------------------------------------------------------------------------
  // The stable sort List.sort performs

  /**
   * Inserts x into t after every element that does not compare greater
   * than x, so x lands behind the elements with its key.
   */
  function Insert(t: seq<Highscore>, x: Highscore, dir: SortDir, field: SortBy): seq<Highscore>
  {
    if t == [] || DirCompare(t[|t| - 1], x, dir, field) <= 0 then t + [x]
    else Insert(t[..|t| - 1], x, dir, field) + [t[|t| - 1]]
  }

  /** The list a stable sort with the given comparator produces. */
  function SortSpec(s: seq<Highscore>, dir: SortDir, field: SortBy): seq<Highscore>
  {
    if s == [] then []
    else Insert(SortSpec(s[..|s| - 1], dir, field), s[|s| - 1], dir, field)
  }

  /** Adjacent elements are in comparator order. */
  predicate Sorted(s: seq<Highscore>, dir: SortDir, field: SortBy)
  {
    forall i :: 0 < i < |s| ==> DirCompare(s[i - 1], s[i], dir, field) <= 0
  }

  /** The elements of s with the given key, in the order of s. */
  function WithKey(s: seq<Highscore>, key: SortKey, field: SortBy): seq<Highscore>
  {
    if s == [] then []
    else WithKey(s[..|s| - 1], key, field) + (if KeyOf(s[|s| - 1], field) == key then [s[|s| - 1]] else [])
  }

  lemma {:induction false} InsertPermutes(t: seq<Highscore>, x: Highscore, dir: SortDir, field: SortBy)
    ensures multiset(Insert(t, x, dir, field)) == multiset(t) + multiset{x}
  {
    if !(t == [] || DirCompare(t[|t| - 1], x, dir, field) <= 0) {
      InsertPermutes(t[..|t| - 1], x, dir, field);
      MultisetSnoc(t);
    }
  }

  /** A list's elements are those of all but its last one, plus the last one. */
  lemma MultisetSnoc(s: seq<Highscore>)
    requires s != []
    ensures multiset(s) == multiset(s[..|s| - 1]) + multiset{s[|s| - 1]}
  {
    assert s == s[..|s| - 1] + [s[|s| - 1]];
  }

  /** sortHighscores returns a permutation of its input. */
  lemma {:induction false} SortSpecPermutes(s: seq<Highscore>, dir: SortDir, field: SortBy)
    ensures multiset(SortSpec(s, dir, field)) == multiset(s)
  {
    if s != [] {
      SortSpecPermutes(s[..|s| - 1], dir, field);
      InsertPermutes(SortSpec(s[..|s| - 1], dir, field), s[|s| - 1], dir, field);
      MultisetSnoc(s);
    }
  }

  /** Inserting into a sorted list keeps it sorted; the new last element is x or the old last one. */
  lemma {:induction false} InsertSorted(t: seq<Highscore>, x: Highscore, dir: SortDir, field: SortBy)
    requires Sorted(t, dir, field)
    ensures Sorted(Insert(t, x, dir, field), dir, field)
    ensures var r := Insert(t, x, dir, field);
            |r| == |t| + 1 && (r[|r| - 1] == x || (t != [] && r[|r| - 1] == t[|t| - 1]))
  {
    if t == [] || DirCompare(t[|t| - 1], x, dir, field) <= 0 {
      SortedSnoc(t, x, dir, field);
    } else {
      var init, last := t[..|t| - 1], t[|t| - 1];
      SortedInit(t, dir, field);
      InsertSorted(init, x, dir, field);
      var r' := Insert(init, x, dir, field);
      DirCompareAntisymmetric(last, x, dir, field);
      if r'[|r'| - 1] != x {
        assert DirCompare(t[|t| - 2], t[|t| - 1], dir, field) <= 0;
      }
      SortedSnoc(r', last, dir, field);
    }
  }

  /** Dropping the last element keeps a list sorted. */
  lemma SortedInit(t: seq<Highscore>, dir: SortDir, field: SortBy)
    requires t != [] && Sorted(t, dir, field)
    ensures Sorted(t[..|t| - 1], dir, field)
  {
    var init := t[..|t| - 1];
    forall i | 0 < i < |init| ensures DirCompare(init[i - 1], init[i], dir, field) <= 0 {
      assert init[i - 1] == t[i - 1] && init[i] == t[i];
    }
  }

  /** Appending an element no smaller than the last keeps a list sorted. */
  lemma SortedSnoc(t: seq<Highscore>, y: Highscore, dir: SortDir, field: SortBy)
    requires Sorted(t, dir, field) && (t == [] || DirCompare(t[|t| - 1], y, dir, field) <= 0)
    ensures Sorted(t + [y], dir, field)
  {
    var r := t + [y];
    forall i | 0 < i < |r| ensures DirCompare(r[i - 1], r[i], dir, field) <= 0 {
      if i < |t| {
        assert r[i - 1] == t[i - 1] && r[i] == t[i];
      }
    }
  }

  /** With ASC adjacent elements are non-decreasing by the key, with DESC non-increasing. */
  lemma {:induction false} SortSpecSorted(s: seq<Highscore>, dir: SortDir, field: SortBy)
    ensures Sorted(SortSpec(s, dir, field), dir, field)
  {
    if s != [] {
      SortSpecSorted(s[..|s| - 1], dir, field);
      InsertSorted(SortSpec(s[..|s| - 1], dir, field), s[|s| - 1], dir, field);
    }
  }

  lemma WithKeyAppend(s: seq<Highscore>, x: Highscore, key: SortKey, field: SortBy)
    ensures WithKey(s + [x], key, field) == WithKey(s, key, field) + (if KeyOf(x, field) == key then [x] else [])
  {
    assert (s + [x])[..|s|] == s;
  }

  lemma {:induction false} InsertStable(t: seq<Highscore>, x: Highscore, key: SortKey, dir: SortDir, field: SortBy)
    ensures WithKey(Insert(t, x, dir, field), key, field) == WithKey(t, key, field) + (if KeyOf(x, field) == key then [x] else [])
  {
    var xs := if KeyOf(x, field) == key then [x] else [];
    if t == [] || DirCompare(t[|t| - 1], x, dir, field) <= 0 {
      WithKeyAppend(t, x, key, field);
    } else {
      var init, last := t[..|t| - 1], t[|t| - 1];
      var ls := if KeyOf(last, field) == key then [last] else [];
      var ins := Insert(init, x, dir, field);
      var w := WithKey(init, key, field);
      InsertStable(init, x, key, dir, field);
      WithKeyAppend(ins, last, key, field);
      assert WithKey(Insert(t, x, dir, field), key, field) == w + xs + ls;
      assert WithKey(t, key, field) == w + ls;
      PassedKeyDiffers(last, x, key, dir, field);
      Commute(w, xs, ls);
    }
  }

  /** Two lists one of which is empty can be appended in either order. */
  lemma Commute(w: seq<Highscore>, xs: seq<Highscore>, ls: seq<Highscore>)
    requires xs == [] || ls == []
    ensures w + xs + ls == w + ls + xs
  {
    if xs == [] {
      assert w + xs == w;
      assert w + ls + xs == w + ls;
    } else {
      assert w + ls == w;
      assert w + xs + ls == w + xs;
    }
  }

  /** An element x moves in front of compares greater than x, so the two never share a key. */
  lemma PassedKeyDiffers(last: Highscore, x: Highscore, key: SortKey, dir: SortDir, field: SortBy)
    requires DirCompare(last, x, dir, field) > 0
    ensures KeyOf(last, field) != key || KeyOf(x, field) != key
  {
    DirCompareZero(last, x, dir, field);
  }

  /**
   * Stability: the elements with any one key appear in the sorted list in
   * their input order, in both directions (negating 0 gives 0).
   */
  lemma {:induction false} SortSpecStable(s: seq<Highscore>, key: SortKey, dir: SortDir, field: SortBy)
    ensures WithKey(SortSpec(s, dir, field), key, field) == WithKey(s, key, field)
  {
    if s != [] {
      SortSpecStable(s[..|s| - 1], key, dir, field);
      InsertStable(SortSpec(s[..|s| - 1], dir, field), s[|s| - 1], key, dir, field);
    }
  }

  /**
   * Where Insert puts x: behind t[j - 1] when every element from position j
   * on compares greater than x and t[j - 1] does not.
   */
  lemma {:induction false} InsertPosition(t: seq<Highscore>, x: Highscore, j: nat, dir: SortDir, field: SortBy)
    requires j <= |t| && (j == 0 || DirCompare(t[j - 1], x, dir, field) <= 0)
    requires forall k :: j <= k < |t| ==> DirCompare(t[k], x, dir, field) > 0
    ensures Insert(t, x, dir, field) == t[..j] + [x] + t[j..]
  {
    if j < |t| {
      var init, last := t[..|t| - 1], t[|t| - 1];
      InsertPosition(init, x, j, dir, field);
      assert init[..j] == t[..j];
      assert t[j..] == init[j..] + [last];
    } else {
      assert t[..j] == t;
    }
  }

  /** A list that holds t with x at position j. */
  lemma Assemble(s: seq<Highscore>, t: seq<Highscore>, x: Highscore, j: nat)
    requires |s| == |t| + 1 && j <= |t|
    requires forall k :: 0 <= k < j ==> s[k] == t[k]
    requires s[j] == x
    requires forall k :: j <= k < |t| ==> s[k + 1] == t[k]
    ensures s == t[..j] + [x] + t[j..]
  {
  }

  /**
   * The inner loop of an insertion sort: moves a[i] left past the elements
   * of the sorted prefix a[..i] that compare greater than it.
   */
  method InsertAt(a: array<Highscore>, i: nat, dir: SortDir, field: SortBy)
    requires i < a.Length
    modifies a
    ensures a[..i + 1] == Insert(old(a[..i]), old(a[i]), dir, field)
    ensures a[i + 1..] == old(a[i + 1..])
  {
    ghost var before := a[..];
    var x := a[i];
    var j := OpenGap(a, i, x, dir, field);
    ghost var shifted := a[..];
    a[j] := x;
    assert a[..] == shifted[j := x];
    GapFilled(shifted, before, i, j, x, dir, field);
  }

  /**
   * s is t with the elements t[j..i] moved one place to the right, all of
   * them comparing greater than x.
   */
  ghost predicate Shifted(s: seq<Highscore>, t: seq<Highscore>, i: nat, j: nat, x: Highscore, dir: SortDir, field: SortBy)
  {
    && |s| == |t| && j <= i < |s|
    && (forall k :: 0 <= k < j ==> s[k] == t[k])
    && (forall k :: j <= k < i ==> s[k + 1] == t[k])
    && (forall k :: i < k < |s| ==> s[k] == t[k])
    && (forall k :: j <= k < i ==> DirCompare(t[k], x, dir, field) > 0)
  }

  /** One more step of the shift: t[j - 1] compares greater than x and moves right. */
  lemma ShiftStep(s: seq<Highscore>, t: seq<Highscore>, i: nat, j: nat, x: Highscore, dir: SortDir, field: SortBy)
    requires Shifted(s, t, i, j, x, dir, field) && j > 0
    requires DirCompare(s[j - 1], x, dir, field) > 0
    ensures Shifted(s[j := s[j - 1]], t, i, j - 1, x, dir, field)
  {
  }

  /** Putting x into the gap at j gives the list Insert builds. */
  lemma GapFilled(s: seq<Highscore>, t: seq<Highscore>, i: nat, j: nat, x: Highscore, dir: SortDir, field: SortBy)
    requires Shifted(s, t, i, j, x, dir, field)
    requires t[i] == x
    requires j == 0 || DirCompare(t[j - 1], x, dir, field) <= 0
    ensures s[j := x][..i + 1] == Insert(t[..i], x, dir, field)
    ensures s[j := x][i + 1..] == t[i + 1..]
  {
    var u, p := s[j := x], t[..i];
    forall k | j <= k < |p| ensures DirCompare(p[k], x, dir, field) > 0 {
      assert p[k] == t[k];
    }
    InsertPosition(p, x, j, dir, field);
    var v := u[..i + 1];
    forall k | 0 <= k < j ensures v[k] == p[k] {
      assert v[k] == s[k] && p[k] == t[k];
    }
    forall k | j <= k < |p| ensures v[k + 1] == p[k] {
      assert v[k + 1] == s[k + 1] && p[k] == t[k];
    }
    Assemble(v, p, x, j);
    SameTail(s, t, i, j, x, dir, field);
  }

  /** Filling the gap leaves the part behind position i as it was. */
  lemma SameTail(s: seq<Highscore>, t: seq<Highscore>, i: nat, j: nat, x: Highscore, dir: SortDir, field: SortBy)
    requires Shifted(s, t, i, j, x, dir, field)
    ensures s[j := x][i + 1..] == t[i + 1..]
  {
    var w, r := s[j := x][i + 1..], t[i + 1..];
    forall k | 0 <= k < |r| ensures w[k] == r[k] {
      assert w[k] == s[i + 1 + k];
    }
  }

  /**
   * Shifts the elements of a[..i] that compare greater than x one place to
   * the right, from the back, and returns the position left free.
   */
  method OpenGap(a: array<Highscore>, i: nat, x: Highscore, dir: SortDir, field: SortBy) returns (j: nat)
    requires i < a.Length
    modifies a
    ensures Shifted(a[..], old(a[..]), i, j, x, dir, field)
    ensures j == 0 || DirCompare(old(a[j - 1]), x, dir, field) <= 0
  {
    ghost var t := a[..];
    j := i;
    while j > 0 && DirCompare(a[j - 1], x, dir, field) > 0
      invariant Shifted(a[..], t, i, j, x, dir, field)
    {
      ghost var s := a[..];
      ShiftStep(s, t, i, j, x, dir, field);
      a[j] := a[j - 1];
      assert a[..] == s[j := s[j - 1]];
      j := j - 1;
    }
  }

  /**
   * sortHighscores: sorts the list in place, as a stable sort with the
   * comparator `sortDir == ASC ? comparison : -comparison`.
   */
  /** The first i elements of s are the input's first i elements sorted; the rest is as in the input. */
  ghost predicate SortedUpTo(s: seq<Highscore>, input: seq<Highscore>, i: nat, dir: SortDir, field: SortBy)
  {
    |s| == |input| && i <= |s| && s[..i] == SortSpec(input[..i], dir, field) && s[i..] == input[i..]
  }

  /** Inserting element i into the sorted prefix extends it by one. */
  lemma SortStep(s: seq<Highscore>, s': seq<Highscore>, input: seq<Highscore>, i: nat, dir: SortDir, field: SortBy)
    requires SortedUpTo(s, input, i, dir, field) && i < |s|
    requires |s'| == |s| && s'[..i + 1] == Insert(s[..i], s[i], dir, field) && s'[i + 1..] == s[i + 1..]
    ensures SortedUpTo(s', input, i + 1, dir, field)
  {
    assert input[..i + 1][..i] == input[..i];
    assert s[i] == s[i..][0] == input[i];
    assert s'[i + 1..] == s[i..][1..] == input[i + 1..];
  }

  method SortHighscores(a: array<Highscore>, dir: SortDir, field: SortBy)
    modifies a
    ensures a[..] == SortSpec(old(a[..]), dir, field)
    ensures multiset(a[..]) == multiset(old(a[..]))
    ensures Sorted(a[..], dir, field)
  {
    ghost var input := a[..];
    var i := 0;
    assert input[..0] == [] && a[0..] == input;
    while i < a.Length
      invariant 0 <= i <= a.Length
      invariant SortedUpTo(a[..], input, i, dir, field)
    {
      ghost var s := a[..];
      InsertAt(a, i, dir, field);
      SortStep(s, a[..], input, i, dir, field);
      i := i + 1;
    }
    assert a[..] == SortSpec(input, dir, field) by {
      assert input[..a.Length] == input;
      assert a[..][..a.Length] == a[..];
    }
    SortSpecPermutes(input, dir, field);
    SortSpecSorted(input, dir, field);
  }

  // ---------------------------------------------------------------------------
  // limitHighscores

  /**
   * limitHighscores: `subList(0, Math.min(limit, size))`. A negative limit
   * makes the end bound negative, so it falls below the start bound 0 and
   * `subList` throws IllegalArgumentException.
   */
  function LimitHighscores(hs: seq<Highscore>, limit: int): (r: Result<seq<Highscore>>)
    ensures r.Err? <==> limit < 0
    ensures r.Err? ==> r.error == IllegalArgument
    ensures r.Ok? ==> r.value <= hs && |r.value| == (if limit < |hs| then limit else |hs|)
  {
    if limit < 0 then Err(IllegalArgument)
    else if limit < |hs| then Ok(hs[..limit])
    else Ok(hs)
  }

  /** A limit of 0 gives no highscores, a limit of at least the size gives them all. */
  lemma LimitBounds(hs: seq<Highscore>, limit: int)
    ensures limit == 0 ==> LimitHighscores(hs, limit) == Ok([])
    ensures limit >= |hs| ==> LimitHighscores(hs, limit) == Ok(hs)
  {
  }

  // ---------------------------------------------------------------------------
  // The store

  /** findByTopicIdAndDifficulty: the highscores of a topic at a difficulty, in table order. */
  function OfTopicAndDifficulty(hs: seq<Highscore>, topicId: int, difficulty: Difficulty): (r: seq<Highscore>)
    ensures |r| <= |hs|
  {
    if hs == [] then []
    else
      var last := hs[|hs| - 1];
      OfTopicAndDifficulty(hs[..|hs| - 1], topicId, difficulty) +
        (if last.topic.id == topicId && last.difficulty == difficulty then [last] else [])
  }

  /** A highscore is listed for a topic and difficulty exactly when it is stored with both. */
  lemma {:induction false} OfTopicAndDifficultyMembers(hs: seq<Highscore>, topicId: int, difficulty: Difficulty, h: Highscore)
    ensures h in OfTopicAndDifficulty(hs, topicId, difficulty) <==> h in hs && h.topic.id == topicId && h.difficulty == difficulty
  {
    if hs != [] {
      OfTopicAndDifficultyMembers(hs[..|hs| - 1], topicId, difficulty, h);
      assert hs == hs[..|hs| - 1] + [hs[|hs| - 1]];
    }
  }

  /**
   * The fields of an update request: a null name, difficulty or topic and a
   * score of 0 each leave the stored field as it is.
   */
  datatype HighscoreDetails = HighscoreDetails(playerName: Option<string>, score: int, difficulty: Option<Difficulty>, topic: Option<Topic>)

  /** The highscore as updateHighscore rewrites it. */
  function UpdatedHighscore(h: Highscore, details: HighscoreDetails): (u: Highscore)
    ensures u.id == h.id
    ensures u.playerName == (if details.playerName.Some? then details.playerName.value else h.playerName)
    ensures u.score == (if details.score != 0 then details.score else h.score)
    ensures u.difficulty == (if details.difficulty.Some? then details.difficulty.value else h.difficulty)
    ensures u.topic == (if details.topic.Some? then details.topic.value else h.topic)
  {
    var h1 := if details.playerName.Some? then h.(playerName := details.playerName.value) else h;
    var h2 := if details.score != 0 then h1.(score := details.score) else h1;
    var h3 := if details.difficulty.Some? then h2.(difficulty := details.difficulty.value) else h2;
    if details.topic.Some? then h3.(topic := details.topic.value) else h3
  }

  /**
   * An update can never set a score to 0: a stored score becomes 0 only if
   * it already was 0. An empty request changes nothing, and applying a
   * request twice is the same as applying it once.
   */
  lemma UpdatedHighscoreProperties(h: Highscore, details: HighscoreDetails)
    ensures UpdatedHighscore(h, details).score == 0 ==> h.score == 0
    ensures UpdatedHighscore(h, HighscoreDetails(None, 0, None, None)) == h
    ensures UpdatedHighscore(UpdatedHighscore(h, details), details) == UpdatedHighscore(h, details)
  {
  }

  /** findById over the highscore table. */
  function FindHighscore(hs: seq<Highscore>, id: int): (r: Option<nat>)
    ensures r.Some? ==> r.value < |hs| && hs[r.value].id == id
    ensures r.None? <==> forall i :: 0 <= i < |hs| ==> hs[i].id != id
  {
    if hs == [] then None
    else if hs[0].id == id then Some(0)
    else
      match FindHighscore(hs[1..], id)
      case None => None
      case Some(k) => Some(k + 1)
  }

  /** No two stored highscores share an id, and every id is below `next`. */
  ghost predicate IdsOk(hs: seq<Highscore>, next: int)
  {
    && (forall i :: 0 <= i < |hs| ==> 1 <= hs[i].id < next)
    && (forall i, j :: 0 <= i < j < |hs| ==> hs[i].id != hs[j].id)
  }

  /** Removing one row keeps the ids unique and in range. */
  lemma RemoveKeepsIdsOk(hs: seq<Highscore>, i: nat, next: int)
    requires i < |hs| && IdsOk(hs, next)
    ensures IdsOk(hs[..i] + hs[i + 1..], next)
  {
    var t := hs[..i] + hs[i + 1..];
    assert forall k :: 0 <= k < |t| ==> t[k] == hs[if k < i then k else k + 1];
  }

  class HighscoreService {
    /** The highscore table, in insertion order. */
    var highscores: seq<Highscore>
    /** The id the table will give the next stored highscore. */
    var nextId: int

    ghost predicate Valid()
      reads this
    {
      nextId >= 1 && IdsOk(highscores, nextId)
    }

    /** A service over an empty highscore table. */
    constructor ()
      ensures Valid() && highscores == [] && nextId == 1
    {
      highscores := [];
      nextId := 1;
    }

    /** getHighscoresByTopicIdAndDifficulty */
    function GetHighscoresByTopicIdAndDifficulty(topicId: int, difficulty: Difficulty): seq<Highscore>
      reads this
    {
      OfTopicAndDifficulty(highscores, topicId, difficulty)
    }

    /**
     * createHighscore: stores the record as given, without any check, under
     * a fresh id. The record is taken to carry no id of its own, so `save`
     * inserts a new row.
     */
    method CreateHighscore(h: Highscore) returns (r: Highscore)
      requires Valid()
      modifies this
      ensures Valid()
      ensures r == h.(id := old(nextId))
      ensures highscores == old(highscores) + [r] && nextId == old(nextId) + 1
    {
      r := h.(id := nextId);
      highscores := highscores + [r];
      nextId := nextId + 1;
    }

    /**
     * updateHighscore: "Highscore not found" for an unknown id, otherwise
     * the row is rewritten field by field and every other row stays.
     */
    method UpdateHighscore(id: int, details: HighscoreDetails) returns (r: Result<Highscore>)
      requires Valid()
      modifies this
      ensures Valid() && nextId == old(nextId)
      ensures FindHighscore(old(highscores), id).None? ==> r == Err(NotFound(HighscoreEntity)) && highscores == old(highscores)
      ensures FindHighscore(old(highscores), id).Some? ==>
                var i := FindHighscore(old(highscores), id).value;
                r == Ok(UpdatedHighscore(old(highscores)[i], details)) && highscores == old(highscores)[i := r.value]
    {
      var k := FindHighscore(highscores, id);
      if k.None? {
        return Err(NotFound(HighscoreEntity));
      }
      var i := k.value;
      var h := highscores[i];
      if details.playerName.Some? {
        h := h.(playerName := details.playerName.value);
      }
      if details.score != 0 {
        h := h.(score := details.score);
      }
      if details.difficulty.Some? {
        h := h.(difficulty := details.difficulty.value);
      }
      if details.topic.Some? {
        h := h.(topic := details.topic.value);
      }
      highscores := highscores[i := h];
      return Ok(h);
    }

    /**
     * deleteHighscore: removes the row with the given id, or fails with
     * "Highscore not found" and leaves the table as it was.
     */
    method DeleteHighscore(id: int) returns (r: Outcome)
      requires Valid()
      modifies this
      ensures Valid() && nextId == old(nextId)
      ensures FindHighscore(old(highscores), id).None? ==> r == Fail(NotFound(HighscoreEntity)) && highscores == old(highscores)
      ensures FindHighscore(old(highscores), id).Some? ==>
                var i := FindHighscore(old(highscores), id).value;
                r == Done && highscores == old(highscores)[..i] + old(highscores)[i + 1..]
    {
      var k := FindHighscore(highscores, id);
      if k.None? {
        return Fail(NotFound(HighscoreEntity));
      }
      RemoveKeepsIdsOk(highscores, k.value, nextId);
      highscores := highscores[..k.value] + highscores[k.value + 1..];
      return Done;
    }
  }
}

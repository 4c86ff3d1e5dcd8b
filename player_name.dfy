/**
 * The front end's player-name check: the name is trimmed, must be at least
 * two UTF-16 code units long, and must consist of words of letters, digits
 * and "-", "_", "." separated by single spaces.
 */
module PlayerName {
  datatype Option<T> = None | Some(value: T)

  /** The result record: validity, an error message, and the cleaned name when valid. */
  datatype ValidationResult = ValidationResult(isValid: bool, error: Option<string>, name: Option<string>)

  const TooShortMessage: string := "Name must be at least 2 characters long."
  const AllowedCharactersMessage: string :=
    "Only letters, numbers, a single whitespace between words, and \"-\", \"_\", \".\" are allowed."

  // ---------------------------------------------------------------------------
  // String.prototype.trim

  /**
   * The characters String.prototype.trim removes: the WhiteSpace and
   * LineTerminator code points of ECMAScript (section 12.2 and 12.3 of
   * ECMA-262), that is TAB, LF, VT, FF, CR, the space separators of
   * category Zs, LINE SEPARATOR, PARAGRAPH SEPARATOR and the byte order mark.
   */
  predicate IsWhitespace(c: char)
  {
    var n := c as int;
    || 0x09 <= n <= 0x0D
    || n == 0x20 || n == 0xA0 || n == 0x1680
    || 0x2000 <= n <= 0x200A
    || n == 0x2028 || n == 0x2029 || n == 0x202F || n == 0x205F || n == 0x3000
    || n == 0xFEFF
  }

  /** How many whitespace characters s starts with. */
  function LeadingWhitespace(s: string): (n: nat)
    ensures n <= |s|
    ensures forall i :: 0 <= i < n ==> IsWhitespace(s[i])
    ensures n < |s| ==> !IsWhitespace(s[n])
  {
    if s == [] || !IsWhitespace(s[0]) then 0 else 1 + LeadingWhitespace(s[1..])
  }

  /** How many whitespace characters s ends with. */
  function TrailingWhitespace(s: string): (n: nat)
    ensures n <= |s|
    ensures forall i :: |s| - n <= i < |s| ==> IsWhitespace(s[i])
    ensures n < |s| ==> !IsWhitespace(s[|s| - n - 1])
  {
    if s == [] || !IsWhitespace(s[|s| - 1]) then 0 else 1 + TrailingWhitespace(s[..|s| - 1])
  }

  /** input.trim(): the result neither starts nor ends with whitespace. */
  function Trim(s: string): (r: string)
    ensures |r| <= |s|
    ensures r == [] || (!IsWhitespace(r[0]) && !IsWhitespace(r[|r| - 1]))
  {
    var t := s[LeadingWhitespace(s)..];
    t[..|t| - TrailingWhitespace(t)]
  }

  /**
   * Trim removes whitespace and nothing else, and only at the ends: s is
   * some whitespace, then the result, then some whitespace.
   */
  lemma TrimRemovesOnlyOuterWhitespace(s: string)
    ensures exists a, b :: 0 <= a <= b <= |s| && Trim(s) == s[a..b]
                           && (forall i :: 0 <= i < a ==> IsWhitespace(s[i]))
                           && (forall i :: b <= i < |s| ==> IsWhitespace(s[i]))
  {
    var a := LeadingWhitespace(s);
    var t := s[a..];
    var b := a + |t| - TrailingWhitespace(t);
    assert Trim(s) == s[a..b];
    assert forall i :: b <= i < |s| ==> s[i] == t[i - a];
  }

  /** A string that neither starts nor ends with whitespace is its own trim. */
  lemma TrimmedIsFixed(s: string)
    requires s == [] || (!IsWhitespace(s[0]) && !IsWhitespace(s[|s| - 1]))
    ensures Trim(s) == s
  {
    assert LeadingWhitespace(s) == 0;
    assert s[0..] == s;
    assert TrailingWhitespace(s) == 0;
  }

  /** Every character of s that is not whitespace survives trimming. */
  lemma TrimKeeps(s: string, i: nat)
    requires i < |s| && !IsWhitespace(s[i])
    ensures s[i] in Trim(s)
  {
    TrimRemovesOnlyOuterWhitespace(s);
    var a, b :| 0 <= a <= b <= |s| && Trim(s) == s[a..b]
                && (forall k :: 0 <= k < a ==> IsWhitespace(s[k]))
                && (forall k :: b <= k < |s| ==> IsWhitespace(s[k]));
    assert a <= i < b;
    assert Trim(s)[i - a] == s[i];
  }

  // ---------------------------------------------------------------------------
  // String length in UTF-16 code units

  /**
   * .length of a JavaScript string: characters beyond the Basic
   * Multilingual Plane take two UTF-16 code units.
   */
  function Utf16Length(s: string): (n: nat)
    ensures |s| <= n <= 2 * |s|
  {
    if s == [] then 0 else Utf16Length(s[..|s| - 1]) + (if s[|s| - 1] as int > 0xFFFF then 2 else 1)
  }

  // ---------------------------------------------------------------------------
  // The name grammar

  /** [a-zA-Z0-9._-] */
  predicate AllowedChar(c: char)
  {
    ('a' <= c <= 'z') || ('A' <= c <= 'Z') || ('0' <= c <= '9') || c == '.' || c == '_' || c == '-'
  }

  /**
   * The regular expression ^[a-zA-Z0-9._-]+( [a-zA-Z0-9._-]+)*$ as a
   * matcher: after the first allowed character, MatchRest accepts what may
   * follow, one allowed character or one space and an allowed character at
   * a time.
   */
  predicate Matches(s: string)
  {
    |s| >= 1 && AllowedChar(s[0]) && MatchRest(s[1..])
  }

  predicate MatchRest(t: string)
    decreases |t|
  {
    || t == []
    || (AllowedChar(t[0]) && MatchRest(t[1..]))
    || (|t| >= 2 && t[0] == ' ' && AllowedChar(t[1]) && MatchRest(t[2..]))
  }

  /** A word of the grammar: one or more allowed characters. */
  predicate IsWord(w: string)
  {
    |w| >= 1 && forall i :: 0 <= i < |w| ==> AllowedChar(w[i])
  }

  /** One or more words. */
  predicate AreWords(ws: seq<string>)
  {
    |ws| >= 1 && forall i :: 0 <= i < |ws| ==> IsWord(ws[i])
  }

  /** The words joined by single spaces. */
  function JoinWords(ws: seq<string>): string
    requires |ws| >= 1
  {
    if |ws| == 1 then ws[0] else ws[0] + " " + JoinWords(ws[1..])
  }

  /** The names the grammar describes: one or more words separated by single spaces. */
  ghost predicate IsWordSequence(s: string)
  {
    exists ws :: AreWords(ws) && s == JoinWords(ws)
  }

  /** What MatchRest accepts after (part of) a word w completes the words of w + t. */
  lemma {:induction false} MatchRestSplits(w: string, t: string) returns (ws: seq<string>)
    requires IsWord(w) && MatchRest(t)
    ensures AreWords(ws) && JoinWords(ws) == w + t
    decreases |t|
  {
    if t == [] {
      ws := [w];
      assert w + t == w;
    } else if AllowedChar(t[0]) && MatchRest(t[1..]) {
      ws := MatchRestSplits(w + [t[0]], t[1..]);
      assert w + [t[0]] + t[1..] == w + t;
    } else {
      var rest := MatchRestSplits([t[1]], t[2..]);
      ws := [w] + rest;
      assert ws[1..] == rest;
      assert w + " " + ([t[1]] + t[2..]) == w + t;
    }
  }

  /** MatchRest reads over characters that may appear in a word. */
  lemma {:induction false} MatchRestWordChars(x: string, tail: string)
    requires forall i :: 0 <= i < |x| ==> AllowedChar(x[i])
    requires MatchRest(tail)
    ensures MatchRest(x + tail)
    decreases |x|
  {
    if x == [] {
      assert x + tail == tail;
    } else {
      MatchRestWordChars(x[1..], tail);
      assert (x + tail)[0] == x[0];
      assert (x + tail)[1..] == x[1..] + tail;
    }
  }

  /** The text after a word's first character, in a join of words, is accepted by MatchRest. */
  lemma {:induction false} JoinedRestMatches(ws: seq<string>)
    requires AreWords(ws)
    ensures MatchRest(JoinWords(ws)[1..])
    decreases |ws|
  {
    var w := ws[0];
    assert IsWord(w);
    if |ws| == 1 {
      MatchRestWordChars(w[1..], []);
      assert w[1..] + [] == w[1..];
    } else {
      var rest := ws[1..];
      assert AreWords(rest) by {
        assert forall i :: 0 <= i < |rest| ==> rest[i] == ws[i + 1];
      }
      JoinedRestMatches(rest);
      var j := JoinWords(rest);
      assert IsWord(rest[0]);
      assert j[0] == rest[0][0];
      var tail := " " + j;
      assert tail[0] == ' ' && AllowedChar(tail[1]) && tail[2..] == j[1..];
      MatchRestWordChars(w[1..], tail);
      assert JoinWords(ws)[1..] == w[1..] + tail;
    }
  }

  /** The matcher accepts exactly the names the grammar describes. */
  lemma MatchesIffWordSequence(s: string)
    ensures Matches(s) <==> IsWordSequence(s)
  {
    if Matches(s) {
      var ws := MatchRestSplits([s[0]], s[1..]);
      assert [s[0]] + s[1..] == s;
    }
    if IsWordSequence(s) {
      var ws :| AreWords(ws) && s == JoinWords(ws);
      JoinedRestMatches(ws);
      assert IsWord(ws[0]);
      assert s[0] == ws[0][0];
    }
  }

  /** MatchRest accepts only allowed characters and spaces, never two spaces in a row. */
  lemma {:induction false} MatchRestShape(t: string)
    requires MatchRest(t)
    ensures forall i :: 0 <= i < |t| ==> AllowedChar(t[i]) || t[i] == ' '
    ensures forall i :: 0 <= i < |t| - 1 ==> t[i] != ' ' || t[i + 1] != ' '
    decreases |t|
  {
    if t != [] {
      if AllowedChar(t[0]) && MatchRest(t[1..]) {
        MatchRestShape(t[1..]);
        assert forall i :: 1 <= i < |t| ==> t[i] == t[1..][i - 1];
      } else {
        MatchRestShape(t[2..]);
        assert forall i :: 2 <= i < |t| ==> t[i] == t[2..][i - 2];
      }
    }
  }

  lemma MatchesShape(s: string)
    requires Matches(s)
    ensures forall i :: 0 <= i < |s| ==> AllowedChar(s[i]) || s[i] == ' '
    ensures forall i :: 0 <= i < |s| - 1 ==> s[i] != ' ' || s[i + 1] != ' '
  {
    MatchRestShape(s[1..]);
    assert forall i :: 1 <= i < |s| ==> s[i] == s[1..][i - 1];
  }

  // ---------------------------------------------------------------------------
  // validatePlayerName

  /**
   * The length check comes first; only a name long enough is matched
   * against the grammar. An invalid result carries an error and no name, a
   * valid one no error and the trimmed name.
   */
  function ValidatePlayerName(input: string): (r: ValidationResult)
    ensures r.isValid <==> r.error.None?
    ensures r.isValid <==> r.name.Some?
    ensures r.isValid ==> r.name.value == Trim(input)
    ensures Utf16Length(Trim(input)) < 2 ==> r == ValidationResult(false, Some(TooShortMessage), None)
    ensures Utf16Length(Trim(input)) >= 2 && !r.isValid ==> r.error == Some(AllowedCharactersMessage)
  {
    var trimmedName := Trim(input);
    if Utf16Length(trimmedName) < 2 then
      ValidationResult(false, Some(TooShortMessage), None)
    else if !Matches(trimmedName) then
      ValidationResult(false, Some(AllowedCharactersMessage), None)
    else
      ValidationResult(true, None, Some(trimmedName))
  }

  /**
   * A name is accepted exactly when, trimmed, it is at least 2 code units
   * long and one or more words of allowed characters separated by single
   * spaces.
   */
  lemma ValidIffWords(input: string)
    ensures ValidatePlayerName(input).isValid <==>
            Utf16Length(Trim(input)) >= 2 && IsWordSequence(Trim(input))
  {
    MatchesIffWordSequence(Trim(input));
  }

  /** Two spaces in a row inside the name are refused with the allowed-characters message. */
  lemma DoubleSpaceIsInvalid(input: string, i: nat)
    requires i + 1 < |Trim(input)| && Trim(input)[i] == ' ' && Trim(input)[i + 1] == ' '
    ensures ValidatePlayerName(input) == ValidationResult(false, Some(AllowedCharactersMessage), None)
  {
    var t := Trim(input);
    assert !IsWhitespace(t[0]) && !IsWhitespace(t[|t| - 1]);
    assert 0 < i && i + 1 < |t| - 1;
    if Matches(t) {
      MatchesShape(t);
      assert false;
    }
  }

  /**
   * A character that is neither allowed nor whitespace anywhere in the
   * input, such as '@', makes the name invalid.
   */
  lemma DisallowedCharIsInvalid(input: string, i: nat)
    requires i < |input| && !AllowedChar(input[i]) && !IsWhitespace(input[i])
    ensures !ValidatePlayerName(input).isValid
    ensures ValidatePlayerName(input).name.None?
  {
    var t := Trim(input);
    TrimKeeps(input, i);
    var k :| 0 <= k < |t| && t[k] == input[i];
    if Matches(t) {
      MatchesShape(t);
      assert false;
    }
  }

  /** Validating an accepted name again accepts it unchanged. */
  lemma ValidationIsIdempotent(input: string)
    requires ValidatePlayerName(input).isValid
    ensures ValidatePlayerName(ValidatePlayerName(input).name.value) == ValidatePlayerName(input)
  {
    TrimmedIsFixed(Trim(input));
  }
}

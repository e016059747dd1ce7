/** The identifier scanner: trivia, word ends and token ends in parser text. */
module Scanner {
  import opened Wrappers

  type Byte = x: int | 0 <= x < 256

  type Bytes = seq<Byte>

  const QUOTE: Byte := '"' as int
  const BACKTICK: Byte := '`' as int
  const DOT: Byte := '.' as int
  const BACKSLASH: Byte := '\\' as int
  const APOSTROPHE: Byte := '\'' as int
  const AMPERSAND: Byte := '&' as int
  const UNDERSCORE: Byte := '_' as int
  const MINUS: Byte := '-' as int
  const SLASH: Byte := '/' as int
  const STAR: Byte := '*' as int

  // ----- character classes of the C locale

  predicate IsSpace(b: Byte) {
    b == 32 || 9 <= b <= 13
  }

  predicate IsLower(b: Byte) {
    'a' as int <= b <= 'z' as int
  }

  predicate IsUpper(b: Byte) {
    'A' as int <= b <= 'Z' as int
  }

  predicate IsDigit(b: Byte) {
    '0' as int <= b <= '9' as int
  }

  predicate StartsWord(b: Byte) {
    IsLower(b) || IsUpper(b) || b == UNDERSCORE || b >= 128
  }

  predicate ContinuesWord(b: Byte) {
    StartsWord(b) || IsDigit(b) || b == '$' as int
  }

  function Lower(b: Byte): Byte {
    if IsUpper(b) then b + 32 else b
  }

  // ----- trivia

  function SpacesEnd(s: Bytes, i: nat): (r: nat)
    requires i <= |s|
    ensures i <= r <= |s|
    decreases |s| - i
  {
    if i < |s| && IsSpace(s[i]) then SpacesEnd(s, i + 1) else i
  }

  function LineEnd(s: Bytes, i: nat): (r: nat)
    requires i <= |s|
    ensures i <= r <= |s|
    decreases |s| - i
  {
    if i < |s| && s[i] != 10 && s[i] != 13 then LineEnd(s, i + 1) else i
  }

  predicate PairAt(s: Bytes, i: nat, a: Byte, b: Byte) {
    i + 1 < |s| && s[i] == a && s[i + 1] == b
  }

  /** Block comments nest; an open one reaches to the end. */
  function BlockEnd(s: Bytes, i: nat, depth: nat): (r: nat)
    requires i <= |s|
    ensures i <= r <= |s|
    decreases |s| - i
  {
    if i == |s| || depth == 0 then i
    else if PairAt(s, i, SLASH, STAR) then BlockEnd(s, i + 2, depth + 1)
    else if PairAt(s, i, STAR, SLASH) then BlockEnd(s, i + 2, depth - 1)
    else BlockEnd(s, i + 1, depth)
  }

  function TriviaEnd(s: Bytes, i: nat): (r: nat)
    requires i <= |s|
    ensures i <= r <= |s|
    decreases |s| - i
  {
    var j := SpacesEnd(s, i);
    if PairAt(s, j, MINUS, MINUS) then TriviaEnd(s, LineEnd(s, j + 2))
    else if PairAt(s, j, SLASH, STAR) then TriviaEnd(s, BlockEnd(s, j + 2, 1))
    else j
  }

  method SkipLine(s: Bytes, start: nat) returns (position: nat)
    requires start <= |s|
    ensures position == LineEnd(s, start)
  {
    position := start;
    while position < |s| && s[position] != 10 && s[position] != 13
      invariant start <= position <= |s| && LineEnd(s, position) == LineEnd(s, start)
    {
      position := position + 1;
    }
  }

  method SkipBlock(s: Bytes, start: nat) returns (position: nat)
    requires start <= |s|
    ensures position == BlockEnd(s, start, 1)
  {
    position := start;
    var depth: nat := 1;
    while position < |s| && depth > 0
      invariant start <= position <= |s| && BlockEnd(s, position, depth) == BlockEnd(s, start, 1)
    {
      if PairAt(s, position, SLASH, STAR) {
        depth := depth + 1;
        position := position + 2;
      } else if PairAt(s, position, STAR, SLASH) {
        depth := depth - 1;
        position := position + 2;
      } else {
        position := position + 1;
      }
    }
  }

  lemma SpaceIsTrivia(s: Bytes, i: nat)
    requires i < |s| && IsSpace(s[i])
    ensures TriviaEnd(s, i) == TriviaEnd(s, i + 1)
  {
  }

  lemma AfterSpaces(s: Bytes, i: nat)
    requires i <= |s| && (i < |s| ==> !IsSpace(s[i]))
    ensures TriviaEnd(s, i) == if PairAt(s, i, MINUS, MINUS) then TriviaEnd(s, LineEnd(s, i + 2))
                               else if PairAt(s, i, SLASH, STAR) then TriviaEnd(s, BlockEnd(s, i + 2, 1))
                               else i
  {
  }

  method SkipTrivia(s: Bytes, start: nat) returns (position: nat)
    requires start <= |s|
    ensures position == TriviaEnd(s, start)
  {
    hide TriviaEnd, SpacesEnd, LineEnd, BlockEnd;
    position := start;
    while true
      invariant position <= |s| && TriviaEnd(s, position) == TriviaEnd(s, start)
      decreases |s| - position
    {
      while position < |s| && IsSpace(s[position])
        invariant position <= |s| && TriviaEnd(s, position) == TriviaEnd(s, start)
      {
        SpaceIsTrivia(s, position);
        position := position + 1;
      }
      AfterSpaces(s, position);
      if PairAt(s, position, MINUS, MINUS) {
        position := SkipLine(s, position + 2);
        continue;
      }
      if PairAt(s, position, SLASH, STAR) {
        position := SkipBlock(s, position + 2);
        continue;
      }
      return;
    }
  }

  // ----- words and quotes

  function WordEnd(s: Bytes, i: nat): (r: nat)
    requires i <= |s|
    ensures i <= r <= |s|
    decreases |s| - i
  {
    if i < |s| && ContinuesWord(s[i]) then WordEnd(s, i + 1) else i
  }

  /** A run of word bytes is a word up to the first byte that does not continue it. */
  lemma {:induction false} WordRuns(s: Bytes, i: nat, end: nat)
    requires i <= end <= |s| && (forall k | i <= k < end :: ContinuesWord(s[k]))
    requires end < |s| ==> !ContinuesWord(s[end])
    ensures WordEnd(s, i) == end
    decreases end - i
  {
    if i < end {
      WordRuns(s, i + 1, end);
    }
  }

  /** The first quote that is not one of a pair. */
  function ClosingQuote(s: Bytes, i: nat): (r: Option<nat>)
    requires i <= |s|
    ensures r.Some? ==> i <= r.value < |s| && s[r.value] == QUOTE
    decreases |s| - i
  {
    if i == |s| then None
    else if s[i] != QUOTE then ClosingQuote(s, i + 1)
    else if i + 1 < |s| && s[i + 1] == QUOTE then ClosingQuote(s, i + 2)
    else Some(i)
  }

  const UESCAPE: Bytes := [117, 101, 115, 99, 97, 112, 101]

  predicate EqualsIgnoringCase(s: Bytes, start: nat, end: nat, word: Bytes)
    requires start <= end <= |s|
  {
    |word| == end - start && forall i | 0 <= i < |word| :: Lower(s[start + i]) == Lower(word[i])
  }

  /** Behind U&"...": the end of the token and its escape byte, with or without a
      UESCAPE clause. */
  function UnicodeSpan(s: Bytes, quoteEnd: nat): (r: (nat, Byte))
    requires quoteEnd <= |s|
    ensures quoteEnd <= r.0 <= |s|
  {
    var word := TriviaEnd(s, quoteEnd);
    var wordEnd := WordEnd(s, word);
    if !EqualsIgnoringCase(s, word, wordEnd, UESCAPE) then (quoteEnd, BACKSLASH)
    else
      var i := TriviaEnd(s, wordEnd);
      if i + 2 >= |s| || s[i] != APOSTROPHE || s[i + 2] != APOSTROPHE then (quoteEnd, BACKSLASH)
      else (i + 3, s[i + 1])
  }

  predicate StartsUnicode(s: Bytes, i: nat) {
    i + 2 < |s| && (s[i] == 'U' as int || s[i] == 'u' as int) && s[i + 1] == AMPERSAND && s[i + 2] == QUOTE
  }

  datatype Style = Unquoted | DoubleQuoted

  /** The identifier token at a position: where it ends and how it is written. */
  function Token(s: Bytes, i: nat): (r: Option<(nat, Style)>)
    ensures r.Some? ==> i < r.value.0 <= |s|
  {
    if i >= |s| then None
    else if StartsUnicode(s, i) then
      var q := ClosingQuote(s, i + 3);
      if q.None? then None else Some((UnicodeSpan(s, q.value + 1).0, DoubleQuoted))
    else if s[i] == QUOTE then
      var q := ClosingQuote(s, i + 1);
      if q.None? then None else Some((q.value + 1, DoubleQuoted))
    else if !StartsWord(s[i]) then None
    else Some((WordEnd(s, i + 1), Unquoted))
  }

  method IdentifierToken(s: Bytes, position: nat) returns (r: Option<(nat, Style)>)
    ensures r == Token(s, position)
  {
    if position >= |s| {
      return None;
    }
    var unicode := StartsUnicode(s, position);
    var cursor := if unicode then position + 3 else position + 1;
    if !unicode && s[position] != QUOTE {
      if !StartsWord(s[position]) {
        return None;
      }
      while cursor < |s| && ContinuesWord(s[cursor])
        invariant position < cursor <= |s| && WordEnd(s, cursor) == WordEnd(s, position + 1)
      {
        cursor := cursor + 1;
      }
      return Some((cursor, Unquoted));
    }
    ghost var first := cursor;
    while cursor < |s|
      invariant first <= cursor <= |s| && ClosingQuote(s, cursor) == ClosingQuote(s, first)
    {
      if s[cursor] == QUOTE {
        if cursor + 1 < |s| && s[cursor + 1] == QUOTE {
          cursor := cursor + 2;
          continue;
        }
        return Some((if unicode then UnicodeSpan(s, cursor + 1).0 else cursor + 1, DoubleQuoted));
      }
      cursor := cursor + 1;
    }
    r := None;
  }
}

/** What the scanner skips and where its tokens end, read off the text. */
module ScannerLaws {
  import opened Wrappers
  import opened Scanner
  import opened Quoting
  import opened Sequences
  import opened UnicodeText

  // ----- the bytes

  lemma ByteClasses(b: Byte)
    ensures IsSpace(b) <==> b in {9, 10, 11, 12, 13, 32}
    ensures StartsWord(b) <==> 65 <= b <= 90 || 97 <= b <= 122 || b == 95 || 128 <= b
    ensures ContinuesWord(b) <==> 65 <= b <= 90 || 97 <= b <= 122 || b == 95 || 128 <= b || 48 <= b <= 57 || b == 36
  {
  }

  // ----- trivia

  /** What stands in a block comment: other bytes than slashes and stars, and comments. */
  datatype Comment = Plain(byte: Byte) | Nested(items: seq<Comment>)

  function CommentText(items: seq<Comment>): Bytes {
    if items == [] then []
    else
      (match items[0]
       case Plain(byte) => [byte]
       case Nested(inner) => [SLASH, STAR] + CommentText(inner) + [STAR, SLASH])
      + CommentText(items[1..])
  }

  predicate IsTidy(items: seq<Comment>) {
    items != [] ==>
      && (match items[0]
          case Plain(byte) => byte != SLASH && byte != STAR
          case Nested(inner) => IsTidy(inner))
      && IsTidy(items[1..])
  }

  /** The text stands at the position. */
  predicate StandsIn(s: Bytes, i: nat, text: Bytes) {
    i + |text| <= |s| && s[i..i + |text|] == text
  }

  lemma StandsApart(s: Bytes, i: nat, a: Bytes, b: Bytes)
    requires StandsIn(s, i, a + b)
    ensures StandsIn(s, i, a) && StandsIn(s, i + |a|, b)
  {
    SubSlice(s, i, i + |a + b|, 0, |a|);
    SubSlice(s, i, i + |a + b|, |a|, |a + b|);
    assert (a + b)[..|a|] == a && (a + b)[|a|..] == b;
  }

  lemma FirstBytes(s: Bytes, i: nat, text: Bytes)
    requires StandsIn(s, i, text)
    ensures forall k | 0 <= k < |text| :: s[i + k] == text[k]
  {
    forall k | 0 <= k < |text| ensures s[i + k] == text[k] {
      SliceAt(s, i, i + |text|, k);
    }
  }

  /** A comment's text between its marks. */
  lemma Framed(s: Bytes, i: nat, text: Bytes)
    requires StandsIn(s, i, [SLASH, STAR] + text + [STAR, SLASH])
    ensures PairAt(s, i, SLASH, STAR) && StandsIn(s, i + 2, text) && PairAt(s, i + 2 + |text|, STAR, SLASH)
  {
    StandsApart(s, i, [SLASH, STAR] + text, [STAR, SLASH]);
    StandsApart(s, i, [SLASH, STAR], text);
    FirstBytes(s, i, [SLASH, STAR]);
    FirstBytes(s, i + 2 + |text|, [STAR, SLASH]);
  }

  lemma BlockStep(s: Bytes, i: nat, depth: nat)
    requires i < |s| && depth > 0
    ensures PairAt(s, i, SLASH, STAR) ==> BlockEnd(s, i, depth) == BlockEnd(s, i + 2, depth + 1)
    ensures PairAt(s, i, STAR, SLASH) ==> BlockEnd(s, i, depth) == BlockEnd(s, i + 2, depth - 1)
    ensures s[i] != SLASH && s[i] != STAR ==> BlockEnd(s, i, depth) == BlockEnd(s, i + 1, depth)
    ensures BlockEnd(s, i, 0) == i
  {
  }

  /** Comments inside a comment are skipped whole. */
  lemma {:induction false} CommentIsSkipped(s: Bytes, i: nat, items: seq<Comment>, depth: nat)
    requires IsTidy(items) && depth > 0 && StandsIn(s, i, CommentText(items))
    ensures BlockEnd(s, i, depth) == BlockEnd(s, i + |CommentText(items)|, depth)
    decreases items
  {
    hide BlockEnd, StandsIn, PairAt;
    StandsInside(s, i, CommentText(items));
    if items != [] {
      var rest := CommentText(items[1..]);
      match items[0] {
        case Plain(byte) =>
          StandsApart(s, i, [byte], rest);
          FirstBytes(s, i, [byte]);
          assert s[i + 0] == byte;
          BlockStep(s, i, depth);
          CommentIsSkipped(s, i + 1, items[1..], depth);
        case Nested(inner) =>
          NestedIsSkipped(s, i, inner, rest, depth);
          CommentIsSkipped(s, i + 2, inner, depth + 1);
          CommentIsSkipped(s, i + |CommentText(inner)| + 4, items[1..], depth);
      }
    }
  }

  lemma StandsInside(s: Bytes, i: nat, text: Bytes)
    requires StandsIn(s, i, text)
    ensures i + |text| <= |s|
  {
  }

  /** The marks around a comment go one level down and up again. */
  lemma NestedIsSkipped(s: Bytes, i: nat, inner: seq<Comment>, rest: Bytes, depth: nat)
    requires depth > 0 && StandsIn(s, i, [SLASH, STAR] + CommentText(inner) + [STAR, SLASH] + rest)
    ensures var n := |CommentText(inner)|;
            && StandsIn(s, i + 2, CommentText(inner)) && StandsIn(s, i + n + 4, rest) && i + n + 4 <= |s|
            && BlockEnd(s, i, depth) == BlockEnd(s, i + 2, depth + 1)
            && BlockEnd(s, i + n + 2, depth + 1) == BlockEnd(s, i + n + 4, depth)
  {
    hide BlockEnd, CommentText;
    var text := CommentText(inner);
    StandsApart(s, i, [SLASH, STAR] + text + [STAR, SLASH], rest);
    Framed(s, i, text);
    BlockStep(s, i, depth);
    BlockStep(s, i + 2 + |text|, depth + 1);
  }

  /** A block comment is trivia up to its own end, whatever comments it holds. */
  lemma BlockIsTrivia(s: Bytes, i: nat, items: seq<Comment>)
    requires IsTidy(items) && StandsIn(s, i, [SLASH, STAR] + CommentText(items) + [STAR, SLASH])
    ensures TriviaEnd(s, i) == TriviaEnd(s, i + |CommentText(items)| + 4)
  {
    hide BlockEnd, CommentText, TriviaEnd, StandsIn;
    var n := |CommentText(items)|;
    Framed(s, i, CommentText(items));
    BlockStep(s, i + 2 + n, 1);
    CommentIsSkipped(s, i + 2, items, 1);
    BlockStart(s, i + n + 4);
    AfterSpaces(s, i);
  }

  lemma BlockStart(s: Bytes, i: nat)
    requires i <= |s|
    ensures BlockEnd(s, i, 0) == i
  {
  }

  lemma {:induction false} LineRuns(s: Bytes, i: nat, end: nat)
    requires i <= end <= |s| && (forall k | i <= k < end :: s[k] != 10 && s[k] != 13)
    requires end < |s| ==> s[end] == 10 || s[end] == 13
    ensures LineEnd(s, i) == end
    decreases end - i
  {
    if i < end {
      LineRuns(s, i + 1, end);
    }
  }

  /** A line comment is trivia up to the end of its line. */
  lemma LineIsTrivia(s: Bytes, i: nat, end: nat)
    requires i + 2 <= end <= |s| && s[i] == '-' as int && s[i + 1] == '-' as int
    requires (forall k | i + 2 <= k < end :: s[k] != 10 && s[k] != 13) && (end < |s| ==> s[end] == 10 || s[end] == 13)
    ensures TriviaEnd(s, i) == TriviaEnd(s, end)
  {
    LineRuns(s, i + 2, end);
    AfterSpaces(s, i);
  }

  /** A comment that is never closed reaches to the end. */
  lemma {:induction false} OpenComment(s: Bytes, i: nat, depth: nat)
    requires i <= |s| && depth > 0 && forall k | i <= k < |s| - 1 :: !PairAt(s, k, STAR, SLASH)
    ensures BlockEnd(s, i, depth) == |s|
    decreases |s| - i
  {
    if i < |s| {
      OpenComment(s, if PairAt(s, i, SLASH, STAR) then i + 2 else i + 1,
                  if PairAt(s, i, SLASH, STAR) then depth + 1 else depth);
    }
  }

  /** Nothing else is trivia. */
  lemma TriviaStops(s: Bytes, i: nat)
    requires i <= |s|
    ensures TriviaEnd(s, i) == i
       <==> !(i < |s| && s[i] in {9, 10, 11, 12, 13, 32})
            && !(i + 1 < |s| && s[i] == '-' as int && s[i + 1] == '-' as int)
            && !(i + 1 < |s| && s[i] == '/' as int && s[i + 1] == '*' as int)
    ensures i < |s| && s[i] in {9, 10, 11, 12, 13, 32} ==> TriviaEnd(s, i) == TriviaEnd(s, i + 1)
  {
    if i < |s| && IsSpace(s[i]) {
      SpaceIsTrivia(s, i);
    } else {
      AfterSpaces(s, i);
    }
  }

  // ----- tokens

  ghost predicate NoneStands(s: Bytes, i: nat) {
    forall w :: !StandsAt(s, i, w)
  }

  /** A quoted value stands at a quote exactly if the quote is closed. */
  lemma SomeStands(s: Bytes, i: nat) returns (v: Option<Bytes>)
    requires i < |s| && s[i] == QUOTE
    ensures v.Some? ==> StandsAt(s, i, v.value) && ClosingQuote(s, i + 1) == Some(i + |Doubled(v.value, QUOTE)| + 1)
    ensures v.None? ==> ClosingQuote(s, i + 1) == None && NoneStands(s, i)
  {
    hide Doubled, ClosingQuote, Undoubled, StandsAt;
    var q := ClosingQuote(s, i + 1);
    if q.Some? {
      BodyIsDoubled(s, i + 1);
      v := Undoubled(s, i + 1, q.value);
      StandsIff(s, i, v.value);
      BodyLength(s, i + 1, q.value, v.value);
    } else {
      v := None;
      forall w ensures !StandsAt(s, i, w) {
        StandsIff(s, i, w);
      }
    }
  }

  lemma BodyLength(s: Bytes, i: nat, q: nat, v: Bytes)
    requires i <= q <= |s| && s[i..q] == Doubled(v, QUOTE)
    ensures q == i + |Doubled(v, QUOTE)|
  {
  }

  /** A quoted token ends behind the quoted value that stands there, and one that is not
      closed is none. */
  lemma QuotedTokenEnds(s: Bytes, i: nat, v: Bytes)
    requires i < |s| && s[i] == '"' as int
    ensures StandsAt(s, i, v) ==> Token(s, i) == Some((i + |Doubled(v, QUOTE)| + 2, DoubleQuoted))
    ensures NoneStands(s, i) ==> Token(s, i) == None
  {
    hide Doubled, ClosingQuote, StandsAt;
    var w := SomeStands(s, i);
    if StandsAt(s, i, v) {
      OneStands(s, i, v, w.value);
    }
  }

  lemma OneStands(s: Bytes, i: nat, v: Bytes, w: Bytes)
    requires i < |s| && s[i] == QUOTE && StandsAt(s, i, v) && StandsAt(s, i, w)
    ensures v == w
  {
    hide Doubled, ClosingQuote, Undoubled, StandsAt;
    StandsIff(s, i, v);
    StandsIff(s, i, w);
  }

  /** A U& token ends behind the quoted text, or behind its UESCAPE clause. */
  lemma UnicodeTokenEnds(s: Bytes, i: nat, v: Bytes)
    requires i + 2 < |s| && (s[i] == 'U' as int || s[i] == 'u' as int)
    requires s[i + 1] == '&' as int && s[i + 2] == '"' as int
    ensures StandsAt(s, i + 2, v) ==>
              var end := i + |Doubled(v, QUOTE)| + 4;
              end <= |s| && Token(s, i) == Some((UnicodeSpan(s, end).0, DoubleQuoted))
    ensures NoneStands(s, i + 2) ==> Token(s, i) == None
  {
    hide Doubled, ClosingQuote, StandsAt, UnicodeSpan;
    var w := SomeStands(s, i + 2);
    if StandsAt(s, i + 2, v) {
      OneStands(s, i + 2, v, w.value);
    }
  }

  /** A word is a token up to the first byte that does not continue it; nothing else is one. */
  lemma WordTokenEnds(s: Bytes, i: nat, end: nat)
    requires i < end <= |s| && s[i] != '"' as int
    requires !(i + 2 < |s| && (s[i] == 'U' as int || s[i] == 'u' as int) && s[i + 1] == '&' as int
               && s[i + 2] == '"' as int)
    ensures (&& StartsWord(s[i]) && (forall k | i < k < end :: ContinuesWord(s[k]))
             && (end < |s| ==> !ContinuesWord(s[end])))
        ==> Token(s, i) == Some((end, Unquoted))
    ensures !StartsWord(s[i]) ==> Token(s, i) == None
  {
    if (forall k | i < k < end :: ContinuesWord(s[k])) && (end < |s| ==> !ContinuesWord(s[end])) {
      WordRuns(s, i + 1, end);
    }
  }

  /** The quoted text behind U& is filled by pieces that say v, with the escape byte of the
      UESCAPE clause behind it. */
  ghost predicate BodySpells(token: Bytes, raw: Bytes, pieces: seq<Piece>, v: Bytes) {
    var end := |Doubled(raw, QUOTE)| + 3;
    StandsAt(token, 2, raw) && end < |token| && Spells(token, 3, end, UnicodeSpan(token, end + 1).1, pieces, v)
  }

  /** What an identifier token stands for: a word for itself, a quoted token for the value
      whose quoted text it is, a U& token for what the pieces of its body say. */
  lemma DecodedMeans(token: Bytes, v: Bytes)
    ensures Decoded(token) == Some(v)
       <==> && token != []
            && if |token| > 2 && (token[0] == 'U' as int || token[0] == 'u' as int) && token[1] == '&' as int
                  && token[2] == '"' as int
               then exists raw, pieces :: BodySpells(token, raw, pieces, v)
               else if token[0] == '"' as int then token == Quoted(v, QUOTE, QUOTE, QUOTE)
               else token == v
  {
    hide Doubled, ClosingQuote, StandsAt, UnicodeSpan, BodySpells, Undoubled, Unescaped;
    if StartsUnicode(token, 0) {
      UnicodeDecoded(token, v);
    } else if token != [] && token[0] == QUOTE {
      QuotedDecoded(token, v);
    }
  }

  lemma UnicodeDecoded(token: Bytes, v: Bytes)
    requires StartsUnicode(token, 0)
    ensures Decoded(token) == Some(v)
       <==> exists raw, pieces :: BodySpells(token, raw, pieces, v)
  {
    hide Doubled, ClosingQuote, StandsAt, UnicodeSpan, Spells, Unescaped;
    var w := SomeStands(token, 2);
    if w.Some? {
      var end := |Doubled(w.value, QUOTE)| + 3;
      var escape := UnicodeSpan(token, end + 1).1;
      BodyMeans(token, 3, end, escape, v);
      assert Decoded(token) == Unescaped(token, 3, end, escape);
      if Decoded(token) == Some(v) {
        var pieces :| Spells(token, 3, end, escape, pieces, v);
        assert BodySpells(token, w.value, pieces, v);
      }
      forall raw, pieces | BodySpells(token, raw, pieces, v)
        ensures Decoded(token) == Some(v)
      {
        OneStands(token, 2, raw, w.value);
        assert Spells(token, 3, end, escape, pieces, v);
      }
    } else {
      assert Decoded(token) == None;
    }
  }

  lemma QuotedDecoded(token: Bytes, v: Bytes)
    requires token != [] && token[0] == QUOTE && !StartsUnicode(token, 0)
    ensures Decoded(token) == Some(v) <==> token == Quoted(v, QUOTE, QUOTE, QUOTE)
  {
    hide Doubled, ClosingQuote, Undoubled;
    StandsIff(token, 0, v);
    var n := |Doubled(v, QUOTE)|;
    assert |Quoted(v, QUOTE, QUOTE, QUOTE)| == n + 2;
    assert token[0..|token|] == token;
    if Decoded(token) == Some(v) {
      BodyIsDoubled(token, 1);
      BodyLength(token, 1, ClosingQuote(token, 1).value, v);
    }
    if token == Quoted(v, QUOTE, QUOTE, QUOTE) {
      BodyIsDoubled(token, 1);
      BodyLength(token, 1, ClosingQuote(token, 1).value, v);
    }
  }
}

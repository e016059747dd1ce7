/** What a U& identifier spells: its elements and their code points, as the text has them. */
module UnicodeText {
  import opened Wrappers
  import opened Scanner
  import opened Quoting

  // ----- digits and bytes

  predicate IsDigitOf(b: Byte, v: nat) {
    || (v < 10 && b == '0' as int + v)
    || (10 <= v < 16 && (b == 'a' as int + v - 10 || b == 'A' as int + v - 10))
  }

  /** n hexadecimal digits with a value; its last digit is the remainder by 16. */
  predicate Digits(s: Bytes, i: nat, n: nat, v: nat) {
    && i + n <= |s|
    && if n == 0 then v == 0 else IsDigitOf(s[i + n - 1], v % 16) && Digits(s, i, n - 1, v / 16)
  }

  /** The six bits of a continuation byte. */
  function Sextet(b: Byte): int {
    (b as int) - 0x80
  }

  predicate IsTail(b: Byte) {
    0 <= Sextet(b) < 0x40
  }

  /** The bytes are the UTF-8 encoding of the code point. */
  predicate IsUtf8(c: nat, b: Bytes) {
    || (c < 0x80 && |b| == 1 && c == b[0] as int)
    || (0x80 <= c < 0x800 && |b| == 2 && IsTail(b[1])
        && c == 0x40 * ((b[0] as int) - 0xC0) + Sextet(b[1]))
    || (0x800 <= c < 0x1_0000 && |b| == 3 && IsTail(b[1]) && IsTail(b[2])
        && c == 0x1000 * ((b[0] as int) - 0xE0) + 0x40 * Sextet(b[1]) + Sextet(b[2]))
    || (0x1_0000 <= c <= 0x10_FFFF && |b| == 4 && IsTail(b[1]) && IsTail(b[2]) && IsTail(b[3])
        && c == 0x4_0000 * ((b[0] as int) - 0xF0) + 0x1000 * Sextet(b[1]) + 0x40 * Sextet(b[2]) + Sextet(b[3]))
  }

  lemma DigitMeans(b: Byte, v: nat)
    ensures HexValue(b) == Some(v) <==> IsDigitOf(b, v)
  {
  }

  lemma {:induction false} HexMeans(s: Bytes, i: nat, n: nat, v: nat)
    requires i + n <= |s|
    ensures Hex(s, i, n) == Some(v) <==> Digits(s, i, n, v)
  {
    hide HexValue, IsDigitOf;
    if n > 0 {
      HexMeans(s, i, n - 1, v / 16);
      DigitMeans(s[i + n - 1], v % 16);
      if HexValue(s[i + n - 1]).Some? {
        DigitMeans(s[i + n - 1], HexValue(s[i + n - 1]).value);
        DigitIsSmall(s[i + n - 1], HexValue(s[i + n - 1]).value);
      }
    }
  }

  lemma DigitIsSmall(b: Byte, v: nat)
    requires IsDigitOf(b, v)
    ensures v < 16
  {
  }

  lemma Sextets(c: nat)
    ensures c == 0x40 * (c / 0x40) + c % 0x40
    ensures c / 0x40 == 0x40 * (c / 0x1000) + c / 0x40 % 0x40
    ensures c / 0x1000 == 0x40 * (c / 0x4_0000) + c / 0x1000 % 0x40
  {
  }

  lemma Utf8Writes(c: nat)
    requires c <= 0x10_FFFF
    ensures Utf8(c).Some? && IsUtf8(c, Utf8(c).value)
  {
    Sextets(c);
  }

  lemma SamePlaces(a: int, b: int, c: int, d: int)
    requires 0 <= b < 0x40 && 0 <= d < 0x40 && 0x40 * a + b == 0x40 * c + d
    ensures a == c && b == d
  {
  }

  lemma Utf8IsUnique(c: nat, b: Bytes, d: Bytes)
    requires IsUtf8(c, b) && IsUtf8(c, d)
    ensures b == d
  {
    assert |b| == |d|;
    var n := |b|;
    if n > 1 {
      var u := if n == 2 then (b[0] as int) - 0xC0 else if n == 3 then 0x40 * ((b[0] as int) - 0xE0) + Sextet(b[1])
               else 0x1000 * ((b[0] as int) - 0xF0) + 0x40 * Sextet(b[1]) + Sextet(b[2]);
      var v := if n == 2 then (d[0] as int) - 0xC0 else if n == 3 then 0x40 * ((d[0] as int) - 0xE0) + Sextet(d[1])
               else 0x1000 * ((d[0] as int) - 0xF0) + 0x40 * Sextet(d[1]) + Sextet(d[2]);
      SamePlaces(u, Sextet(b[n - 1]), v, Sextet(d[n - 1]));
      if n > 2 {
        var w := if n == 3 then (b[0] as int) - 0xE0 else 0x40 * ((b[0] as int) - 0xF0) + Sextet(b[1]);
        var x := if n == 3 then (d[0] as int) - 0xE0 else 0x40 * ((d[0] as int) - 0xF0) + Sextet(d[1]);
        SamePlaces(w, Sextet(b[n - 2]), x, Sextet(d[n - 2]));
        if n > 3 {
          SamePlaces((b[0] as int) - 0xF0, Sextet(b[1]), (d[0] as int) - 0xF0, Sextet(d[1]));
        }
      }
    }
  }

  lemma Utf8Means(c: nat, b: Bytes)
    ensures Utf8(c) == Some(b) <==> IsUtf8(c, b)
  {
    hide Utf8, IsUtf8;
    if c <= 0x10_FFFF {
      Utf8Writes(c);
      if IsUtf8(c, b) {
        Utf8IsUnique(c, b, Utf8(c).value);
      }
    } else {
      NoUtf8(c, b);
    }
  }

  lemma NoUtf8(c: nat, b: Bytes)
    requires c > 0x10_FFFF
    ensures Utf8(c) == None && !IsUtf8(c, b)
  {
  }

  // ----- the elements of a body

  /** A byte for itself, a doubled quote or escape, a code point of four or, behind a
      plus sign, six digits, and a code point as two surrogates. */
  datatype Piece =
    | Plain(byte: Byte)
    | TwoQuotes
    | TwoEscapes
    | Code(long: bool, point: nat)
    | Surrogates(long: bool, high: nat, low: nat)

  const PLUS: Byte := '+' as int

  function Length(p: Piece): nat {
    match p
    case Plain(_) => 1
    case TwoQuotes => 2
    case TwoEscapes => 2
    case Code(long, _) => if long then 8 else 5
    case Surrogates(long, _, _) => if long then 13 else 10
  }

  /** The escape byte with the digits of a number behind it. */
  predicate NumberAt(s: Bytes, i: nat, escape: Byte, long: bool, v: nat) {
    && i + 1 < |s| && s[i] == escape && s[i + 1] != escape
    && if long then s[i + 1] == PLUS && Digits(s, i + 2, 6, v) else s[i + 1] != PLUS && Digits(s, i + 1, 4, v)
  }

  predicate Stands(s: Bytes, i: nat, end: nat, escape: Byte, p: Piece) {
    && i + Length(p) <= end <= |s|
    && match p
       case Plain(byte) => s[i] == byte && byte != QUOTE && byte != escape
       case TwoQuotes => s[i] == QUOTE && s[i + 1] == QUOTE
       case TwoEscapes => escape != QUOTE && s[i] == escape && s[i + 1] == escape
       case Code(long, point) =>
         escape != QUOTE && NumberAt(s, i, escape, long, point) && !(0xD800 <= point <= 0xDBFF)
       case Surrogates(long, high, low) =>
         var next := i + if long then 8 else 5;
         && escape != QUOTE && NumberAt(s, i, escape, long, high) && 0xD800 <= high <= 0xDBFF
         && s[next] == escape && Digits(s, next + 1, 4, low) && 0xDC00 <= low <= 0xDFFF
  }

  predicate Says(p: Piece, escape: Byte, bytes: Bytes) {
    match p
    case Plain(byte) => bytes == [byte]
    case TwoQuotes => bytes == [QUOTE]
    case TwoEscapes => bytes == [escape]
    case Code(_, point) => IsUtf8(point, bytes)
    case Surrogates(_, high, low) =>
      0xD800 <= high && 0xDC00 <= low && IsUtf8(0x1_0000 + 0x400 * (high - 0xD800) + (low - 0xDC00), bytes)
  }

  lemma NumberMeans(s: Bytes, i: nat, end: nat, escape: Byte, v: nat)
    requires i + 1 < end <= |s| && s[i] == escape && s[i + 1] != escape
    ensures var long := s[i + 1] == PLUS;
            var start, n := if long then i + 2 else i + 1, if long then 6 else 4;
            n <= end - start ==> (Hex(s, start, n) == Some(v) <==> NumberAt(s, i, escape, long, v))
  {
    hide Hex, Digits;
    var long := s[i + 1] == PLUS;
    var start, n := if long then i + 2 else i + 1, if long then 6 else 4;
    if n <= end - start {
      HexMeans(s, start, n, v);
    }
  }

  /** A piece that stands there is read as the bytes it says. */
  lemma PieceIsRead(s: Bytes, i: nat, end: nat, escape: Byte, p: Piece, bytes: Bytes)
    requires i < end && Stands(s, i, end, escape, p) && Says(p, escape, bytes)
    ensures Element(s, i, end, escape) == Some((bytes, i + Length(p)))
  {
    hide Hex, Digits, Utf8, IsUtf8;
    match p {
      case Plain(_) =>
      case TwoQuotes =>
      case TwoEscapes =>
      case Code(long, point) =>
        NumberMeans(s, i, end, escape, point);
        Utf8Means(point, bytes);
      case Surrogates(long, high, low) =>
        NumberMeans(s, i, end, escape, high);
        HexMeans(s, i + if long then 9 else 6, 4, low);
        Utf8Means(0x1_0000 + (high - 0xD800) * 0x400 + (low - 0xDC00), bytes);
    }
  }

  /** What is read is said by a piece that stands there. */
  lemma ReadIsPiece(s: Bytes, i: nat, end: nat, escape: Byte) returns (p: Piece)
    requires i < end <= |s| && Element(s, i, end, escape).Some?
    ensures Stands(s, i, end, escape, p) && Says(p, escape, Element(s, i, end, escape).value.0)
    ensures Element(s, i, end, escape).value.1 == i + Length(p)
  {
    hide Hex, Digits, Utf8, IsUtf8;
    if s[i] == QUOTE {
      p := TwoQuotes;
    } else if s[i] != escape {
      p := Plain(s[i]);
    } else if s[i + 1] == escape {
      p := TwoEscapes;
    } else {
      var long := s[i + 1] == PLUS;
      var start, n := if long then i + 2 else i + 1, if long then 6 else 4;
      var c := Hex(s, start, n).value;
      NumberMeans(s, i, end, escape, c);
      if 0xD800 <= c <= 0xDBFF {
        var low := Hex(s, start + n + 1, 4).value;
        HexMeans(s, start + n + 1, 4, low);
        p := Surrogates(long, c, low);
        Utf8Means(0x1_0000 + (c - 0xD800) * 0x400 + (low - 0xDC00), Element(s, i, end, escape).value.0);
      } else {
        p := Code(long, c);
        Utf8Means(c, Element(s, i, end, escape).value.0);
      }
    }
  }

  // ----- whole bodies and tokens

  /** The pieces stand one after the other up to the end, and together say v. */
  ghost predicate Spells(s: Bytes, i: nat, end: nat, escape: Byte, pieces: seq<Piece>, v: Bytes)
    decreases |pieces|
  {
    if pieces == [] then i == end && v == []
    else
      && Stands(s, i, end, escape, pieces[0])
      && exists n | 0 <= n <= |v| ::
           && Says(pieces[0], escape, v[..n])
           && Spells(s, i + Length(pieces[0]), end, escape, pieces[1..], v[n..])
  }

  lemma {:induction false} SpelledIsRead(s: Bytes, i: nat, end: nat, escape: Byte, pieces: seq<Piece>, v: Bytes)
    requires i <= end <= |s| && Spells(s, i, end, escape, pieces, v)
    ensures Unescaped(s, i, end, escape) == Some(v)
    decreases |pieces|
  {
    hide Element, Stands, Says;
    if pieces != [] {
      var n :| && 0 <= n <= |v| && Says(pieces[0], escape, v[..n])
               && Spells(s, i + Length(pieces[0]), end, escape, pieces[1..], v[n..]);
      PieceFits(s, i, end, escape, pieces[0]);
      PieceIsRead(s, i, end, escape, pieces[0], v[..n]);
      SpelledIsRead(s, i + Length(pieces[0]), end, escape, pieces[1..], v[n..]);
      assert v[..n] + v[n..] == v;
    }
  }

  lemma PieceFits(s: Bytes, i: nat, end: nat, escape: Byte, p: Piece)
    requires Stands(s, i, end, escape, p)
    ensures i < i + Length(p) <= end <= |s|
  {
  }

  lemma {:induction false} ReadIsSpelled(s: Bytes, i: nat, end: nat, escape: Byte) returns (pieces: seq<Piece>)
    requires i <= end <= |s| && Unescaped(s, i, end, escape).Some?
    ensures Spells(s, i, end, escape, pieces, Unescaped(s, i, end, escape).value)
    decreases end - i
  {
    hide Element, Stands, Says;
    if i == end {
      return [];
    }
    var e := Element(s, i, end, escape).value;
    var p := ReadIsPiece(s, i, end, escape);
    var rest := ReadIsSpelled(s, e.1, end, escape);
    pieces := [p] + rest;
    var v, tail := Unescaped(s, i, end, escape).value, Unescaped(s, e.1, end, escape).value;
    assert v == e.0 + tail;
    assert v[..|e.0|] == e.0 && v[|e.0|..] == tail && pieces[1..] == rest;
  }

  /** A U& body has a value exactly if pieces fill it, and it is the one they say. */
  lemma BodyMeans(s: Bytes, i: nat, end: nat, escape: Byte, v: Bytes)
    requires i <= end <= |s|
    ensures Unescaped(s, i, end, escape) == Some(v) <==> exists pieces :: Spells(s, i, end, escape, pieces, v)
  {
    hide Unescaped, Spells;
    if Unescaped(s, i, end, escape) == Some(v) {
      var pieces := ReadIsSpelled(s, i, end, escape);
    }
    if pieces :| Spells(s, i, end, escape, pieces, v) {
      SpelledIsRead(s, i, end, escape, pieces, v);
    }
  }

  /** The word UESCAPE in lower and in upper case. */
  const LOWER_CASE: Bytes := [117, 101, 115, 99, 97, 112, 101]
  const UPPER_CASE: Bytes := [85, 69, 83, 67, 65, 80, 69]

  /** A UESCAPE clause: the word, in upper or lower case, and one byte in apostrophes. */
  predicate ClauseAt(s: Bytes, quoteEnd: nat, j: nat, b: Byte)
    requires quoteEnd <= |s|
  {
    var i := TriviaEnd(s, quoteEnd);
    && i + 7 <= |s| && (forall k | 0 <= k < 7 :: s[i + k] == LOWER_CASE[k] || s[i + k] == UPPER_CASE[k])
    && (i + 7 < |s| ==> !ContinuesWord(s[i + 7]))
    && j == TriviaEnd(s, i + 7)
    && j + 2 < |s| && s[j] == '\'' as int && s[j + 1] == b && s[j + 2] == '\'' as int
  }

  lemma ClauseMeans(s: Bytes, quoteEnd: nat)
    requires quoteEnd <= |s|
    ensures forall j: nat, b: Byte | ClauseAt(s, quoteEnd, j, b) :: UnicodeSpan(s, quoteEnd) == (j + 3, b)
    ensures (forall j: nat, b: Byte :: !ClauseAt(s, quoteEnd, j, b)) ==>
              UnicodeSpan(s, quoteEnd) == (quoteEnd, BACKSLASH)
  {
    var i := TriviaEnd(s, quoteEnd);
    WordMeans(s, i);
    hide TriviaEnd, WordEnd, EqualsIgnoringCase;
    if EqualsIgnoringCase(s, i, WordEnd(s, i), UESCAPE) {
      var j := TriviaEnd(s, i + 7);
      if j + 2 < |s| && s[j] == APOSTROPHE && s[j + 2] == APOSTROPHE {
        assert ClauseAt(s, quoteEnd, j, s[j + 1]);
      }
    }
  }

  lemma WordMeans(s: Bytes, i: nat)
    requires i <= |s|
    ensures EqualsIgnoringCase(s, i, WordEnd(s, i), UESCAPE)
       <==> && i + 7 <= |s|
            && (forall k | 0 <= k < 7 :: s[i + k] == LOWER_CASE[k] || s[i + k] == UPPER_CASE[k])
            && (i + 7 < |s| ==> !ContinuesWord(s[i + 7]))
    ensures EqualsIgnoringCase(s, i, WordEnd(s, i), UESCAPE) ==> WordEnd(s, i) == i + 7
  {
    forall k | 0 <= k < 7
      ensures forall b: Byte :: Lower(b) == Lower(UESCAPE[k]) <==> b == LOWER_CASE[k] || b == UPPER_CASE[k]
    {
    }
    WordStops(s, i);
    if i + 7 <= |s| && (forall k | 0 <= k < 7 :: s[i + k] == LOWER_CASE[k] || s[i + k] == UPPER_CASE[k])
       && (i + 7 < |s| ==> !ContinuesWord(s[i + 7])) {
      forall k | i <= k < i + 7 ensures ContinuesWord(s[k]) {
        var n := k - i;
        assert s[i + n] == LOWER_CASE[n] || s[i + n] == UPPER_CASE[n];
        assert IsLower(LOWER_CASE[n]) && IsUpper(UPPER_CASE[n]);
      }
      WordRuns(s, i, i + 7);
    }
  }

  lemma {:induction false} WordStops(s: Bytes, i: nat)
    requires i <= |s|
    ensures var e := WordEnd(s, i);
            && (forall k | i <= k < e :: ContinuesWord(s[k]))
            && (e < |s| ==> !ContinuesWord(s[e]))
    decreases |s| - i
  {
    if i < |s| && ContinuesWord(s[i]) {
      WordStops(s, i + 1);
    }
  }
}

/** Writing identifiers and reading them back: the renderer and the matcher undo
    each other. */
module Quoting {
  import opened Wrappers
  import opened Scanner
  import opened Sequences

  // ----- writing

  /** Every escaped byte twice. */
  function Doubled(v: Bytes, escaped: Byte): (r: Bytes)
    ensures |r| >= |v|
  {
    if v == [] then [] else (if v[0] == escaped then [v[0], v[0]] else [v[0]]) + Doubled(v[1..], escaped)
  }

  function Quoted(v: Bytes, open: Byte, close: Byte, escaped: Byte): Bytes {
    [open] + Doubled(v, escaped) + [close]
  }

  lemma {:induction false} DoubledJoin(a: Bytes, b: Bytes, escaped: Byte)
    ensures Doubled(a + b, escaped) == Doubled(a, escaped) + Doubled(b, escaped)
    decreases |a|
  {
    if a == [] {
      assert a + b == b;
    } else {
      assert (a + b)[1..] == a[1..] + b;
      DoubledJoin(a[1..], b, escaped);
    }
  }

  /** Fills the output byte by byte. */
  method RenderQuoted(identifier: Bytes, open: Byte, close: Byte, escaped: Byte) returns (spelling: Bytes)
    ensures spelling == Quoted(identifier, open, close, escaped)
  {
    spelling := [open];
    for i := 0 to |identifier|
      invariant spelling == [open] + Doubled(identifier[..i], escaped)
    {
      spelling := spelling + [identifier[i]];
      if identifier[i] == escaped {
        spelling := spelling + [identifier[i]];
      }
      assert identifier[..i + 1] == identifier[..i] + [identifier[i]];
      DoubledJoin(identifier[..i], [identifier[i]], escaped);
      assert Doubled([identifier[i]], escaped)
          == if identifier[i] == escaped then [escaped, escaped] else [identifier[i]];
    }
    assert identifier[..|identifier|] == identifier;
    spelling := spelling + [close];
  }

  // ----- reading a quoted body

  function Prepend(a: Bytes, r: Option<Bytes>): Option<Bytes> {
    if r.Some? then Some(a + r.value) else None
  }

  /** The value between the quotes, given where the closing quote is. */
  function Undoubled(s: Bytes, i: nat, end: nat): Option<Bytes>
    requires i <= end <= |s|
    decreases end - i
  {
    if i == end then Some([])
    else if s[i] != QUOTE then Prepend([s[i]], Undoubled(s, i + 1, end))
    else if i + 1 < end && s[i + 1] == QUOTE then Prepend([QUOTE], Undoubled(s, i + 2, end))
    else None
  }

  /** Up to its closing quote a quoted body always has a value, and it is the one
      whose doubling stands there. */
  lemma {:induction false} BodyIsDoubled(s: Bytes, i: nat)
    requires i <= |s| && ClosingQuote(s, i).Some?
    ensures var q := ClosingQuote(s, i).value;
            && Undoubled(s, i, q).Some? && s[i..q] == Doubled(Undoubled(s, i, q).value, QUOTE)
            && (q + 1 < |s| ==> s[q + 1] != QUOTE)
    decreases |s| - i
  {
    var q := ClosingQuote(s, i).value;
    if s[i] != QUOTE {
      BodyIsDoubled(s, i + 1);
      assert s[i..q] == [s[i]] + s[i + 1..q];
    } else if i + 1 < |s| && s[i + 1] == QUOTE {
      BodyIsDoubled(s, i + 2);
      assert s[i..q] == [QUOTE, QUOTE] + s[i + 2..q];
    }
  }

  /** Where a doubling stands, followed by a single quote, the quote is the closing one. */
  lemma {:induction false} DoubledIsBody(s: Bytes, i: nat, v: Bytes)
    requires i + |Doubled(v, QUOTE)| < |s| && s[i..i + |Doubled(v, QUOTE)|] == Doubled(v, QUOTE)
    requires var q := i + |Doubled(v, QUOTE)|; s[q] == QUOTE && (q + 1 < |s| ==> s[q + 1] != QUOTE)
    ensures ClosingQuote(s, i) == Some(i + |Doubled(v, QUOTE)|)
    ensures Undoubled(s, i, i + |Doubled(v, QUOTE)|) == Some(v)
    decreases |v|
  {
    var d := Doubled(v, QUOTE);
    if v != [] {
      var n := if v[0] == QUOTE then 2 else 1;
      var rest := Doubled(v[1..], QUOTE);
      assert d == d[..n] + rest;
      assert s[i] == d[0] && s[i + n - 1] == d[n - 1];
      assert s[i + n..i + |d|] == rest by {
        assert s[i + n..i + |d|] == s[i..i + |d|][n..];
      }
      DoubledIsBody(s, i + n, v[1..]);
      assert v == [v[0]] + v[1..];
    }
  }

  /** Accepts a value at a position exactly when its quoted rendering stands there
      and is not followed by another quote. */
  method QuotedTokenMatches(s: Bytes, location: int, value: Bytes) returns (ok: bool)
    ensures ok <==> StandsAt(s, location, value)
  {
    if location < 0 || location >= |s| || s[location] != QUOTE {
      return false;
    }
    var pos, at := location + 1, 0;
    StandsIff(s, location, value);
    while pos < |s|
      invariant location < pos <= |s| && at <= |value|
      invariant StandsAt(s, location, value) <==> Reads(s, pos, value[at..])
    {
      ReadsStep(s, pos, value[at..]);
      if s[pos] == QUOTE {
        if pos + 1 < |s| && s[pos + 1] == QUOTE {
          if at == |value| || value[at] != QUOTE {
            return false;
          }
          at, pos := at + 1, pos + 2;
          continue;
        }
        return at == |value|;
      }
      if at == |value| || s[pos] != value[at] {
        return false;
      }
      at, pos := at + 1, pos + 1;
    }
    ok := false;
  }

  predicate StandsAt(s: Bytes, location: int, value: Bytes) {
    var end := location + |Quoted(value, QUOTE, QUOTE, QUOTE)|;
    && 0 <= location && end <= |s| && s[location..end] == Quoted(value, QUOTE, QUOTE, QUOTE)
    && (end < |s| ==> s[end] != QUOTE)
  }

  /** From here to its closing quote the body says v. */
  predicate Reads(s: Bytes, i: nat, v: Bytes)
    requires i <= |s|
  {
    var q := ClosingQuote(s, i);
    q.Some? && Undoubled(s, i, q.value) == Some(v)
  }

  lemma ReadsStep(s: Bytes, i: nat, v: Bytes)
    requires i < |s|
    ensures s[i] != QUOTE ==> (Reads(s, i, v) <==> v != [] && v[0] == s[i] && Reads(s, i + 1, v[1..]))
    ensures s[i] == QUOTE && i + 1 < |s| && s[i + 1] == QUOTE
      ==> (Reads(s, i, v) <==> v != [] && v[0] == QUOTE && Reads(s, i + 2, v[1..]))
    ensures s[i] == QUOTE && !(i + 1 < |s| && s[i + 1] == QUOTE) ==> (Reads(s, i, v) <==> v == [])
  {
    if v != [] {
      assert v == [v[0]] + v[1..];
    }
  }

  lemma StandsIff(s: Bytes, location: nat, value: Bytes)
    requires location < |s| && s[location] == QUOTE
    ensures StandsAt(s, location, value) <==> Reads(s, location + 1, value)
  {
    hide Doubled, ClosingQuote, Undoubled;
    var d := Doubled(value, QUOTE);
    var end := location + |d| + 2;
    assert |Quoted(value, QUOTE, QUOTE, QUOTE)| == |d| + 2;
    if StandsAt(s, location, value) {
      QuotedAt(s, location, d);
      DoubledIsBody(s, location + 1, value);
    }
    if Reads(s, location + 1, value) {
      BodyIsDoubled(s, location + 1);
      AtQuoted(s, location, d);
    }
  }

  lemma QuotedAt(s: Bytes, i: nat, d: Bytes)
    requires i + |d| + 2 <= |s| && s[i..i + |d| + 2] == [QUOTE] + d + [QUOTE]
    ensures s[i] == QUOTE && s[i + 1..i + 1 + |d|] == d && s[i + 1 + |d|] == QUOTE
  {
    var n, text := |d|, [QUOTE] + d + [QUOTE];
    SliceAt(s, i, i + n + 2, 0);
    SubSlice(s, i, i + n + 2, 1, 1 + n);
    SliceAt(s, i, i + n + 2, 1 + n);
    assert text[0] == QUOTE && text[1..1 + n] == d && text[1 + n] == QUOTE;
  }

  lemma AtQuoted(s: Bytes, i: nat, d: Bytes)
    requires i + |d| + 2 <= |s| && s[i] == QUOTE && s[i + 1..i + 1 + |d|] == d && s[i + 1 + |d|] == QUOTE
    ensures s[i..i + |d| + 2] == [QUOTE] + d + [QUOTE]
  {
    assert s[i..i + |d| + 2] == [s[i]] + s[i + 1..i + 1 + |d|] + [s[i + 1 + |d|]];
  }

  // ----- decoding a token

  function HexValue(b: Byte): Option<nat> {
    if IsDigit(b) then Some(b - '0' as int)
    else if 'a' as int <= b <= 'f' as int then Some(b - 'a' as int + 10)
    else if 'A' as int <= b <= 'F' as int then Some(b - 'A' as int + 10)
    else None
  }

  /** n hexadecimal digits, most significant first. */
  function Hex(s: Bytes, i: nat, n: nat): (r: Option<nat>)
    requires i + n <= |s|
  {
    if n == 0 then Some(0)
    else
      var high, low := Hex(s, i, n - 1), HexValue(s[i + n - 1]);
      if high.Some? && low.Some? then Some(16 * high.value + low.value) else None
  }

  function Utf8(c: nat): Option<Bytes> {
    if c <= 0x7F then Some([c])
    else if c <= 0x7FF then Some([0xC0 + c / 0x40, 0x80 + c % 0x40])
    else if c <= 0xFFFF then Some([0xE0 + c / 0x1000, 0x80 + c / 0x40 % 0x40, 0x80 + c % 0x40])
    else if c <= 0x10FFFF then
      Some([0xF0 + c / 0x40000, 0x80 + c / 0x1000 % 0x40, 0x80 + c / 0x40 % 0x40, 0x80 + c % 0x40])
    else None
  }

  /** One escape behind its escape byte: the bytes it stands for and where it ends.
      A high surrogate must be followed by an escaped low one. */
  function Escape(s: Bytes, i: nat, end: nat, escape: Byte): (r: Option<(Bytes, nat)>)
    requires i <= end <= |s|
    ensures r.Some? ==> i < r.value.1 <= end
  {
    if i == end then None
    else if s[i] == escape then Some(([escape], i + 1))
    else
      var start, n := if s[i] == '+' as int then i + 1 else i, if s[i] == '+' as int then 6 else 4;
      if n > end - start then None
      else
        var c, j := Hex(s, start, n), start + n;
        if c.None? then None
        else if 0xD800 <= c.value <= 0xDBFF then
          if j + 5 > end || s[j] != escape then None
          else
            var low := Hex(s, j + 1, 4);
            if low.None? || low.value < 0xDC00 || low.value > 0xDFFF then None
            else Encoded(0x10000 + (c.value - 0xD800) * 0x400 + (low.value - 0xDC00), j + 5)
        else Encoded(c.value, j)
  }

  function Encoded(c: nat, next: nat): (r: Option<(Bytes, nat)>)
    ensures r.Some? ==> r.value.1 == next
  {
    if Utf8(c).Some? then Some((Utf8(c).value, next)) else None
  }

  /** One element of a U& body: the bytes it stands for and where it ends. */
  function Element(s: Bytes, i: nat, end: nat, escape: Byte): (r: Option<(Bytes, nat)>)
    requires i < end <= |s|
    ensures r.Some? ==> i < r.value.1 <= end
  {
    if s[i] == QUOTE then if i + 1 < end && s[i + 1] == QUOTE then Some(([QUOTE], i + 2)) else None
    else if s[i] != escape then Some(([s[i]], i + 1))
    else Escape(s, i + 1, end, escape)
  }

  function Unescaped(s: Bytes, i: nat, end: nat, escape: Byte): Option<Bytes>
    requires i <= end <= |s|
    decreases end - i
  {
    if i == end then Some([])
    else
      var e := Element(s, i, end, escape);
      if e.None? then None else Prepend(e.value.0, Unescaped(s, e.value.1, end, escape))
  }

  /** The value an identifier token stands for, if it is well formed. */
  function Decoded(token: Bytes): Option<Bytes> {
    if token == [] then None
    else if StartsUnicode(token, 0) then
      var q := ClosingQuote(token, 3);
      if q.None? then None else Unescaped(token, 3, q.value, UnicodeSpan(token, q.value + 1).1)
    else if token[0] == QUOTE then
      var q := ClosingQuote(token, 1);
      if q.None? || q.value + 1 != |token| then None else Undoubled(token, 1, q.value)
    else Some(token)
  }

  /** A C string holds no zero byte. */
  predicate IsText(v: Bytes) {
    forall i | 0 <= i < |v| :: v[i] != 0
  }

  /** The matcher compares byte by byte with a value it is given, and accepts
      exactly the value the token decodes to. */
  method IdentifierMatches(token: Bytes, value: Bytes) returns (ok: bool)
    requires IsText(value)
    ensures ok <==> Decoded(token) == Some(value)
  {
    if token == [] {
      return false;
    }
    if StartsUnicode(token, 0) {
      ok := UnicodeMatches(token, value);
      return;
    }
    if token[0] != QUOTE {
      return token == value;
    }
    ok := BodyMatches(token, value);
  }

  method BodyMatches(token: Bytes, value: Bytes) returns (ok: bool)
    requires token != [] && token[0] == QUOTE
    ensures ok <==> Reads(token, 1, value) && ClosingQuote(token, 1) == Some(|token| - 1)
  {
    var cursor, at := 1, 0;
    while cursor < |token|
      invariant cursor <= |token| && at <= |value|
      invariant ClosingQuote(token, cursor) == ClosingQuote(token, 1)
      invariant Reads(token, 1, value) <==> Reads(token, cursor, value[at..])
    {
      ReadsStep(token, cursor, value[at..]);
      if token[cursor] == QUOTE {
        if cursor + 1 < |token| && token[cursor + 1] == QUOTE {
          if at == |value| || value[at] != QUOTE {
            return false;
          }
          at, cursor := at + 1, cursor + 2;
          continue;
        }
        return cursor + 1 == |token| && at == |value|;
      }
      if at == |value| || value[at] != token[cursor] {
        return false;
      }
      at, cursor := at + 1, cursor + 1;
    }
    ok := false;
  }

  method UnicodeMatches(token: Bytes, value: Bytes) returns (ok: bool)
    requires StartsUnicode(token, 0) && IsText(value)
    ensures ok <==> Decoded(token) == Some(value)
  {
    var quoteEnd := 3;
    while quoteEnd < |token|
      invariant 3 <= quoteEnd <= |token| && ClosingQuote(token, quoteEnd) == ClosingQuote(token, 3)
    {
      if token[quoteEnd] == QUOTE {
        if quoteEnd + 1 < |token| && token[quoteEnd + 1] == QUOTE {
          quoteEnd := quoteEnd + 2;
          continue;
        }
        break;
      }
      quoteEnd := quoteEnd + 1;
    }
    if quoteEnd >= |token| {
      return false;
    }
    ok := ElementsMatch(token, 3, quoteEnd, UnicodeSpan(token, quoteEnd + 1).1, value);
  }

  lemma UnescapedStep(s: Bytes, i: nat, end: nat, escape: Byte, v: Bytes)
    requires i < end <= |s| && Element(s, i, end, escape).Some?
    ensures var e := Element(s, i, end, escape).value;
            Unescaped(s, i, end, escape) == Prepend(e.0, Unescaped(s, e.1, end, escape))
  {
    hide Element;
  }

  method ElementsMatch(token: Bytes, start: nat, end: nat, escape: Byte, value: Bytes) returns (ok: bool)
    requires start <= end <= |token|
    ensures ok <==> Unescaped(token, start, end, escape) == Some(value)
  {
    hide Element;
    var cursor: nat, at: nat := start, 0;
    while cursor < end
      invariant start <= cursor <= end && at <= |value|
      invariant Unescaped(token, start, end, escape) == Some(value)
           <==> Unescaped(token, cursor, end, escape) == Some(value[at..])
    {
      var e := Element(token, cursor, end, escape);
      if e.None? {
        return false;
      }
      var matched := MatchBytes(value, at, e.value.0);
      UnescapedStep(token, cursor, end, escape, value[at..]);
      PrependIs(e.value.0, Unescaped(token, e.value.1, end, escape), value, at);
      if !matched {
        return false;
      }
      at, cursor := at + |e.value.0|, e.value.1;
    }
    assert value[at..] == [] <==> at == |value|;
    assert Unescaped(token, end, end, escape) == Some([]);
    ok := at == |value|;
  }

  /** Compares one byte after the other and stops at the end of the value. */
  method MatchBytes(value: Bytes, at: nat, bytes: Bytes) returns (ok: bool)
    requires at <= |value|
    ensures ok <==> at + |bytes| <= |value| && value[at..at + |bytes|] == bytes
  {
    for i := 0 to |bytes|
      invariant at + i <= |value| && forall k | 0 <= k < i :: value[at + k] == bytes[k]
    {
      if at + i == |value| || value[at + i] != bytes[i] {
        if at + |bytes| <= |value| {
          SliceAt(value, at, at + |bytes|, i);
        }
        return false;
      }
    }
    ok := true;
  }

  lemma PrependIs(a: Bytes, r: Option<Bytes>, value: Bytes, at: nat)
    requires at <= |value|
    ensures Prepend(a, r) == Some(value[at..])
       <==> at + |a| <= |value| && value[at..at + |a|] == a && r == Some(value[at + |a|..])
  {
    var rest := value[at..];
    if at + |a| <= |value| {
      assert rest[..|a|] == value[at..at + |a|] && rest[|a|..] == value[at + |a|..];
    }
    if r.Some? && a + r.value == rest {
      assert rest[..|a|] == a && rest[|a|..] == r.value;
    }
    if at + |a| <= |value| && rest[..|a|] == a {
      assert rest == a + rest[|a|..];
    }
  }
}

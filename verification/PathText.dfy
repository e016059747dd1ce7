/** Dotted identifier paths as text, and reading the same parts back. */
module PathText {
  import opened Wrappers
  import opened Scanner
  import opened Quoting
  import opened Sequences

  // ----- writing

  /** A word that needs no quotes unless it is a keyword. */
  predicate BareWord(v: Bytes) {
    && v != [] && (IsLower(v[0]) || v[0] == UNDERSCORE)
    && forall i | 0 <= i < |v| :: IsLower(v[i]) || IsDigit(v[i]) || v[i] == UNDERSCORE
  }

  function Spelling(keyword: Bytes -> bool, v: Bytes): Bytes {
    if BareWord(v) && !keyword(v) then v else Quoted(v, QUOTE, QUOTE, QUOTE)
  }

  /** Writes a quote in front of every quote of the identifier. */
  method RenderDefault(keyword: Bytes -> bool, identifier: Bytes) returns (status: Status, spelling: Bytes)
    ensures status == if identifier == [] then InvalidArgument else Ok
    ensures status == Ok ==> spelling == Spelling(keyword, identifier)
  {
    if identifier == [] {
      return InvalidArgument, [];
    }
    var safe := IsLower(identifier[0]) || identifier[0] == UNDERSCORE;
    for i := 0 to |identifier|
      invariant safe <==> (IsLower(identifier[0]) || identifier[0] == UNDERSCORE)
                          && forall k | 0 <= k < i ::
                               IsLower(identifier[k]) || IsDigit(identifier[k]) || identifier[k] == UNDERSCORE
    {
      var b := identifier[i];
      if !(IsLower(b) || IsDigit(b) || b == UNDERSCORE) {
        safe := false;
      }
    }
    if safe && !keyword(identifier) {
      return Ok, identifier;
    }
    spelling := RenderQuoted(identifier, QUOTE, QUOTE, QUOTE);
    status := Ok;
  }

  const SYSDATE: Bytes := [115, 121, 115, 100, 97, 116, 101]

  predicate IsSysdate(v: Bytes) {
    |v| == |SYSDATE| && forall i | 0 <= i < |v| :: Lower(v[i]) == SYSDATE[i]
  }

  /** How one part of a path is written; a lone SYSDATE is always quoted, and
      MySQL quotes with backticks. */
  function PartSpelling(mysql: bool, keyword: Bytes -> bool, alone: bool, v: Bytes): Bytes {
    if mysql then
      if !(BareWord(v) && !keyword(v)) || (alone && IsSysdate(v)) then Quoted(v, BACKTICK, BACKTICK, BACKTICK) else v
    else if alone && IsSysdate(v) then Quoted(v, QUOTE, QUOTE, QUOTE)
    else Spelling(keyword, v)
  }

  /** What is written bare: a word of small letters, digits and underscores that starts with
      no digit and is no keyword, but not a lone SYSDATE.  All else is quoted. */
  lemma PartIsBare(mysql: bool, keyword: Bytes -> bool, alone: bool, v: Bytes)
    ensures PartSpelling(mysql, keyword, alone, v)
         == if && v != [] && !(48 <= v[0] <= 57) && !keyword(v)
               && (forall i | 0 <= i < |v| :: 97 <= v[i] <= 122 || 48 <= v[i] <= 57 || v[i] == 95)
               && !(alone && v == [115, 121, 115, 100, 97, 116, 101])
            then v else if mysql then Quoted(v, 96, 96, 96) else Quoted(v, 34, 34, 34)
  {
    hide Quoted;
    if BareWord(v) {
      assert forall i | 0 <= i < |v| :: Lower(v[i]) == v[i];
      assert IsSysdate(v) <==> v == SYSDATE;
    }
  }

  function PathFrom(mysql: bool, keyword: Bytes -> bool, alone: bool, parts: seq<Bytes>): Bytes
    requires parts != []
  {
    if |parts| == 1 then PartSpelling(mysql, keyword, alone, parts[0])
    else PartSpelling(mysql, keyword, alone, parts[0]) + [DOT] + PathFrom(mysql, keyword, alone, parts[1..])
  }

  function Path(mysql: bool, keyword: Bytes -> bool, parts: seq<Bytes>): Bytes
    requires parts != []
  {
    PathFrom(mysql, keyword, |parts| == 1, parts)
  }

  method RenderPath(mysql: bool, keyword: Bytes -> bool, parts: seq<Bytes>) returns (status: Status, sql: Bytes)
    ensures status == if parts != [] && [] !in parts then Ok else InvalidArgument
    ensures status == Ok ==> sql == Path(mysql, keyword, parts)
  {
    sql := [];
    if parts == [] {
      return InvalidArgument, [];
    }
    for i := 0 to |parts|
      invariant forall k | 0 <= k < i :: parts[k] != []
    {
      if parts[i] == [] {
        return InvalidArgument, [];
      }
    }
    hide PartSpelling, PathTail, Path;
    var alone := |parts| == 1;
    StartOfPath(mysql, keyword, parts);
    sql := RenderPart(mysql, keyword, alone, parts[0]);
    for i := 1 to |parts|
      invariant sql + PathTail(mysql, keyword, alone, parts[i..]) == Path(mysql, keyword, parts)
    {
      var part := RenderPart(mysql, keyword, alone, parts[i]);
      TailSplit(mysql, keyword, alone, parts, i);
      Associative(sql, [DOT] + part, PathTail(mysql, keyword, alone, parts[i + 1..]));
      Associative(sql, [DOT], part);
      sql := sql + [DOT] + part;
    }
    EndOfPath(mysql, keyword, alone, parts);
    assert sql + [] == sql;
    status := Ok;
  }

  function PathTail(mysql: bool, keyword: Bytes -> bool, alone: bool, parts: seq<Bytes>): Bytes {
    if parts == [] then [] else [DOT] + PathFrom(mysql, keyword, alone, parts)
  }

  lemma StartOfPath(mysql: bool, keyword: Bytes -> bool, parts: seq<Bytes>)
    requires parts != []
    ensures Path(mysql, keyword, parts)
         == PartSpelling(mysql, keyword, |parts| == 1, parts[0]) + PathTail(mysql, keyword, |parts| == 1, parts[1..])
  {
    hide PartSpelling;
    var text := PartSpelling(mysql, keyword, |parts| == 1, parts[0]);
    if |parts| == 1 {
      assert text + [] == text;
    } else {
      Associative(text, [DOT], PathFrom(mysql, keyword, false, parts[1..]));
    }
  }

  lemma EndOfPath(mysql: bool, keyword: Bytes -> bool, alone: bool, parts: seq<Bytes>)
    ensures PathTail(mysql, keyword, alone, parts[|parts|..]) == []
  {
  }

  lemma TailSplit(mysql: bool, keyword: Bytes -> bool, alone: bool, parts: seq<Bytes>, i: nat)
    requires i < |parts|
    ensures PathTail(mysql, keyword, alone, parts[i..])
         == [DOT] + PartSpelling(mysql, keyword, alone, parts[i]) + PathTail(mysql, keyword, alone, parts[i + 1..])
  {
    hide PartSpelling;
    assert parts[i..][1..] == parts[i + 1..] && parts[i..][0] == parts[i];
    var text := PartSpelling(mysql, keyword, alone, parts[i]);
    if i + 1 < |parts| {
      Associative([DOT], text, [DOT] + PathFrom(mysql, keyword, alone, parts[i + 1..]));
      Associative(text, [DOT], PathFrom(mysql, keyword, alone, parts[i + 1..]));
    } else {
      assert parts[i + 1..] == [];
      assert [DOT] + text + [] == [DOT] + text;
    }
  }

  method RenderPart(mysql: bool, keyword: Bytes -> bool, alone: bool, part: Bytes) returns (spelling: Bytes)
    requires part != []
    ensures spelling == PartSpelling(mysql, keyword, alone, part)
  {
    var status;
    if mysql {
      status, spelling := RenderDefault(keyword, part);
      if spelling[0] == QUOTE || (alone && IsSysdate(part)) {
        spelling := RenderQuoted(part, BACKTICK, BACKTICK, BACKTICK);
      }
    } else if alone && IsSysdate(part) {
      spelling := RenderQuoted(part, QUOTE, QUOTE, QUOTE);
    } else {
      status, spelling := RenderDefault(keyword, part);
    }
  }

  // ----- reading

  /** Where the given dotted names end, if they stand at a position. */
  function NamesAt(s: Bytes, position: nat, values: seq<Bytes>): (r: Option<nat>)
    requires position <= |s| && values != []
    ensures r.Some? ==> position < r.value <= |s|
    decreases |values|
  {
    var start := TriviaEnd(s, position);
    var token := Token(s, start);
    if token.None? || Decoded(s[start..token.value.0]) != Some(values[0]) then None
    else if |values| == 1 then Some(token.value.0)
    else
      var dot := TriviaEnd(s, token.value.0);
      if dot >= |s| || s[dot] != DOT then None else NamesAt(s, dot + 1, values[1..])
  }

  /** An identifier token for the value. */
  predicate NameStands(s: Bytes, start: nat, end: nat, value: Bytes) {
    && start < end <= |s| && Token(s, start).Some? && Token(s, start).value.0 == end
    && Decoded(s[start..end]) == Some(value)
  }

  /** Behind a name, a dot and then the next name, with trivia around the dot. */
  predicate Linked(s: Bytes, end: nat, next: nat) {
    && end <= |s|
    && var dot := TriviaEnd(s, end);
       dot < |s| && s[dot] == '.' as int && next == TriviaEnd(s, dot + 1)
  }

  /** The names stand one after the other, dots between them. */
  ghost predicate NamesStand(s: Bytes, position: nat, values: seq<Bytes>, starts: seq<nat>, ends: seq<nat>)
    requires position <= |s|
  {
    && |starts| == |ends| == |values| > 0
    && starts[0] == TriviaEnd(s, position)
    && (forall k | 0 <= k < |values| :: NameStands(s, starts[k], ends[k], values[k]))
    && (forall j, k {:trigger Linked(s, ends[j], starts[k])} | 0 <= j < |values| && k == j + 1 < |values| ::
          Linked(s, ends[j], starts[k]))
  }

  lemma NamesStandRest(s: Bytes, position: nat, values: seq<Bytes>, starts: seq<nat>, ends: seq<nat>)
    requires position <= |s| && |values| > 1 && NamesStand(s, position, values, starts, ends)
    ensures NameStands(s, starts[0], ends[0], values[0]) && Linked(s, ends[0], starts[1])
    ensures NamesStand(s, TriviaEnd(s, ends[0]) + 1, values[1..], starts[1..], ends[1..])
  {
    hide TriviaEnd, NameStands;
    assert Linked(s, ends[0], starts[1]);
    forall j, k {:trigger Linked(s, ends[1..][j], starts[1..][k])} | 0 <= j < |values| - 1 && k == j + 1 < |values| - 1
      ensures Linked(s, ends[1..][j], starts[1..][k])
    {
      assert Linked(s, ends[j + 1], starts[k + 1]);
    }
  }

  lemma NamesStandFirst(s: Bytes, position: nat, values: seq<Bytes>, starts: seq<nat>, ends: seq<nat>, start: nat,
                        end: nat)
    requires position <= |s| && |values| > 1 && start == TriviaEnd(s, position)
    requires NameStands(s, start, end, values[0]) && end <= |s| && TriviaEnd(s, end) < |s|
    requires s[TriviaEnd(s, end)] == DOT && NamesStand(s, TriviaEnd(s, end) + 1, values[1..], starts, ends)
    ensures NamesStand(s, position, values, [start] + starts, [end] + ends)
  {
    hide TriviaEnd, NameStands;
    var ss, es := [start] + starts, [end] + ends;
    forall k | 0 <= k < |values|
      ensures NameStands(s, ss[k], es[k], values[k])
    {
      assert k > 0 ==> values[k] == values[1..][k - 1];
      assert k > 0 ==> NameStands(s, starts[k - 1], ends[k - 1], values[1..][k - 1]);
    }
    forall j, k {:trigger Linked(s, es[j], ss[k])} | 0 <= j < |values| && k == j + 1 < |values|
      ensures Linked(s, es[j], ss[k])
    {
      assert j > 0 ==> Linked(s, ends[j - 1], starts[k - 1]);
    }
  }

  lemma FirstStands(s: Bytes, position: nat, values: seq<Bytes>, starts: seq<nat>, ends: seq<nat>)
    requires position <= |s| && NamesStand(s, position, values, starts, ends)
    ensures |starts| == |ends| == |values| > 0 && NameStands(s, TriviaEnd(s, position), ends[0], values[0])
  {
    hide TriviaEnd, NameStands, Linked;
    assert NameStands(s, starts[0], ends[0], values[0]);
  }

  lemma OneName(s: Bytes, position: nat, values: seq<Bytes>, end: nat)
    requires position <= |s| && values != [] && NameStands(s, TriviaEnd(s, position), end, values[0])
    ensures end <= |s| && (|values| == 1 ==> NamesAt(s, position, values) == Some(end))
    ensures var dot := TriviaEnd(s, end);
            |values| > 1 && dot < |s| && s[dot] == DOT
            ==> NamesAt(s, position, values) == NamesAt(s, dot + 1, values[1..])
  {
    hide TriviaEnd, Token, Decoded;
  }

  lemma {:induction false} StandingNames(s: Bytes, position: nat, values: seq<Bytes>, starts: seq<nat>,
                                         ends: seq<nat>)
    requires position <= |s| && values != [] && NamesStand(s, position, values, starts, ends)
    ensures |ends| == |values| && NamesAt(s, position, values) == Some(ends[|ends| - 1])
    decreases |values|
  {
    hide NamesAt, NamesStand, NameStands, TriviaEnd;
    FirstStands(s, position, values, starts, ends);
    OneName(s, position, values, ends[0]);
    if |values| > 1 {
      NamesStandRest(s, position, values, starts, ends);
      StandingNames(s, TriviaEnd(s, ends[0]) + 1, values[1..], starts[1..], ends[1..]);
    }
  }

  lemma {:induction false} NamesStanding(s: Bytes, position: nat, values: seq<Bytes>)
    returns (starts: seq<nat>, ends: seq<nat>)
    requires position <= |s| && values != [] && NamesAt(s, position, values).Some?
    ensures NamesStand(s, position, values, starts, ends)
    ensures ends[|ends| - 1] == NamesAt(s, position, values).value
    decreases |values|
  {
    hide TriviaEnd, Token, Decoded;
    var start := TriviaEnd(s, position);
    var end := Token(s, start).value.0;
    if |values| == 1 {
      starts, ends := [start], [end];
    } else {
      var ss, es := NamesStanding(s, TriviaEnd(s, end) + 1, values[1..]);
      NamesStandFirst(s, position, values, ss, es, start, end);
      starts, ends := [start] + ss, [end] + es;
    }
  }

  /** A list of names is read up to an end exactly if the names stand there. */
  lemma NamesMean(s: Bytes, position: nat, values: seq<Bytes>, end: nat)
    requires position <= |s| && values != []
    ensures NamesAt(s, position, values) == Some(end)
       <==> exists starts, ends :: NamesStand(s, position, values, starts, ends) && ends[|ends| - 1] == end
  {
    hide NamesAt, NamesStand;
    if NamesAt(s, position, values) == Some(end) {
      var starts, ends := NamesStanding(s, position, values);
    }
    forall starts, ends | NamesStand(s, position, values, starts, ends)
      ensures |ends| > 0 && NamesAt(s, position, values) == Some(ends[|ends| - 1])
    {
      StandingNames(s, position, values, starts, ends);
    }
  }

  method ReadNames(s: Bytes, location: nat, values: seq<Bytes>) returns (ok: bool, position: nat)
    requires location <= |s| && values != [] && forall i | 0 <= i < |values| :: IsText(values[i])
    ensures ok <==> NamesAt(s, location, values).Some?
    ensures ok ==> position == NamesAt(s, location, values).value
  {
    hide TriviaEnd, Token, Decoded;
    position := location;
    for i := 0 to |values|
      invariant position <= |s|
      invariant i < |values| ==> NamesAt(s, position, values[i..]) == NamesAt(s, location, values)
      invariant i == |values| ==> NamesAt(s, location, values) == Some(position)
    {
      var start := SkipTrivia(s, position);
      var token := IdentifierToken(s, start);
      if token.None? {
        return false, position;
      }
      var matches := IdentifierMatches(s[start..token.value.0], values[i]);
      if !matches {
        return false, position;
      }
      position := token.value.0;
      assert values[i..][1..] == values[i + 1..];
      if i + 1 < |values| {
        position := SkipTrivia(s, position);
        if position >= |s| || s[position] != DOT {
          return false, position;
        }
        position := position + 1;
      }
    }
    ok := true;
  }

  // ----- a spelled part is one token

  predicate Spells(text: Bytes, v: Bytes) {
    text == Quoted(v, QUOTE, QUOTE, QUOTE) || (text == v && BareWord(v))
  }

  /** A part's text stands at a position, and a dot or the end follows. */
  predicate PartAt(s: Bytes, i: nat, text: Bytes) {
    && i + |text| <= |s| && s[i..i + |text|] == text
    && (i + |text| < |s| ==> s[i + |text|] == DOT)
  }

  lemma BareToken(s: Bytes, i: nat, v: Bytes)
    requires BareWord(v) && PartAt(s, i, v)
    ensures Token(s, i) == Some((i + |v|, Unquoted)) && TriviaEnd(s, i) == i
    ensures Decoded(v) == Some(v)
  {
    forall k | i <= k < i + |v|
      ensures s[k] == v[k - i]
    {
      assert s[i..i + |v|][k - i] == s[k];
    }
    WordRuns(s, i + 1, i + |v|);
    assert !StartsUnicode(s, i);
  }

  lemma QuotedParts(s: Bytes, i: nat, v: Bytes)
    requires PartAt(s, i, Quoted(v, QUOTE, QUOTE, QUOTE))
    ensures var n := |Doubled(v, QUOTE)|;
            && |Quoted(v, QUOTE, QUOTE, QUOTE)| == n + 2 && i + n + 2 <= |s|
            && s[i] == QUOTE && s[i + 1..i + 1 + n] == Doubled(v, QUOTE) && s[i + 1 + n] == QUOTE
            && (i + n + 2 < |s| ==> s[i + n + 2] == DOT)
  {
    var text, d := Quoted(v, QUOTE, QUOTE, QUOTE), Doubled(v, QUOTE);
    hide Doubled;
    var n := |d|;
    SliceAt(s, i, i + n + 2, 0);
    SubSlice(s, i, i + n + 2, 1, 1 + n);
    SliceAt(s, i, i + n + 2, 1 + n);
    assert text[0] == QUOTE && text[1..1 + n] == d && text[1 + n] == QUOTE;
  }

  lemma QuotedToken(s: Bytes, i: nat, v: Bytes)
    requires PartAt(s, i, Quoted(v, QUOTE, QUOTE, QUOTE))
    ensures Token(s, i) == Some((i + |Quoted(v, QUOTE, QUOTE, QUOTE)|, DoubleQuoted)) && TriviaEnd(s, i) == i
  {
    QuotedParts(s, i, v);
    DoubledIsBody(s, i + 1, v);
  }

  lemma QuotedDecodes(v: Bytes)
    ensures Decoded(Quoted(v, QUOTE, QUOTE, QUOTE)) == Some(v)
  {
    var text := Quoted(v, QUOTE, QUOTE, QUOTE);
    assert text[0..|text|] == text;
    QuotedParts(text, 0, v);
    DoubledIsBody(text, 1, v);
  }

  lemma SpelledPart(s: Bytes, i: nat, text: Bytes, v: Bytes)
    requires Spells(text, v) && PartAt(s, i, text)
    ensures TriviaEnd(s, i) == i && Token(s, i).Some? && Token(s, i).value.0 == i + |text|
    ensures Decoded(s[i..i + |text|]) == Some(v)
    ensures TriviaEnd(s, i + |text|) == i + |text|
  {
    if BareWord(v) && text == v {
      BareToken(s, i, v);
    } else {
      QuotedToken(s, i, v);
      QuotedDecodes(v);
    }
  }

  // ----- round trip

  lemma PartSpells(keyword: Bytes -> bool, alone: bool, v: Bytes)
    ensures Spells(PartSpelling(false, keyword, alone, v), v)
  {
  }

  /** A rendered path is read back into the same parts, up to its very end. */
  lemma {:induction false} PathReadsBack(keyword: Bytes -> bool, alone: bool, parts: seq<Bytes>, s: Bytes, i: nat)
    requires parts != [] && i <= |s| && s[i..] == PathFrom(false, keyword, alone, parts)
    ensures NamesAt(s, i, parts) == Some(|s|)
    decreases |parts|
  {
    hide PathFrom, PartSpelling, TriviaEnd, Token, Decoded, Spells, PartAt, NamesAt;
    var text := PartSpelling(false, keyword, alone, parts[0]);
    PartSpells(keyword, alone, parts[0]);
    PathParts(keyword, alone, parts);
    if |parts| == 1 {
      LastPart(s, i, text);
      SpelledPart(s, i, text, parts[0]);
      LastName(s, i, text, parts[0]);
      assert parts == [parts[0]];
    } else {
      var rest := PathFrom(false, keyword, alone, parts[1..]);
      FirstPart(s, i, text, rest);
      SpelledPart(s, i, text, parts[0]);
      PathReadsBack(keyword, alone, parts[1..], s, i + |text| + 1);
      FirstName(s, i, text, parts);
    }
  }

  lemma PathParts(keyword: Bytes -> bool, alone: bool, parts: seq<Bytes>)
    requires parts != []
    ensures |parts| == 1 ==> PathFrom(false, keyword, alone, parts) == PartSpelling(false, keyword, alone, parts[0])
    ensures |parts| > 1
      ==> PathFrom(false, keyword, alone, parts)
          == PartSpelling(false, keyword, alone, parts[0]) + [DOT] + PathFrom(false, keyword, alone, parts[1..])
  {
  }

  lemma LastPart(s: Bytes, i: nat, text: Bytes)
    requires i <= |s| && s[i..] == text
    ensures PartAt(s, i, text) && i + |text| == |s|
  {
    assert s[i..i + |text|] == s[i..];
  }

  lemma FirstPart(s: Bytes, i: nat, text: Bytes, rest: Bytes)
    requires i <= |s| && s[i..] == text + [DOT] + rest
    ensures i + |text| < |s| && PartAt(s, i, text) && s[i + |text|] == DOT && s[i + |text| + 1..] == rest
  {
    var tail, n := s[i..], |text|;
    assert |tail| == |s| - i;
    SubSlice(s, i, |s|, 0, n);
    SliceAt(s, i, |s|, n);
    SubSlice(s, i, |s|, n + 1, |tail|);
    assert s[i..|s|] == tail && tail[..n] == text && tail[n] == DOT && tail[n + 1..] == rest;
  }

  lemma LastName(s: Bytes, i: nat, text: Bytes, v: Bytes)
    requires i + |text| == |s| && TriviaEnd(s, i) == i && Token(s, i).Some? && Token(s, i).value.0 == i + |text|
    requires Decoded(s[i..i + |text|]) == Some(v)
    ensures NamesAt(s, i, [v]) == Some(|s|)
  {
    hide TriviaEnd, Token, Decoded;
  }

  lemma FirstName(s: Bytes, i: nat, text: Bytes, parts: seq<Bytes>)
    requires |parts| > 1 && i + |text| < |s| && s[i + |text|] == DOT
    requires TriviaEnd(s, i) == i && Token(s, i).Some? && Token(s, i).value.0 == i + |text|
    requires Decoded(s[i..i + |text|]) == Some(parts[0]) && TriviaEnd(s, i + |text|) == i + |text|
    ensures NamesAt(s, i, parts) == NamesAt(s, i + |text| + 1, parts[1..])
  {
    hide TriviaEnd, Token, Decoded;
  }

  /** At most one list of names is read from a position up to the end of a text. */
  lemma {:induction false} NamesAreUnique(s: Bytes, i: nat, p: seq<Bytes>, q: seq<Bytes>)
    requires p != [] && q != [] && i <= |s|
    requires NamesAt(s, i, p) == Some(|s|) == NamesAt(s, i, q)
    ensures p == q
    decreases |p|
  {
    hide TriviaEnd, Token, Decoded;
    assert p[0] == q[0];
    if |p| > 1 && |q| > 1 {
      var dot := TriviaEnd(s, Token(s, TriviaEnd(s, i)).value.0);
      NamesAreUnique(s, dot + 1, p[1..], q[1..]);
      assert p == [p[0]] + p[1..] && q == [q[0]] + q[1..];
    }
  }

  // ----- injectivity

  /** What may stand behind a part: nothing, or a dot. */
  predicate EndsPart(rest: Bytes) {
    rest == [] || rest[0] == DOT
  }

  lemma {:induction false} DoubledIsPrefixFree(v: Bytes, w: Bytes, quote: Byte, r: Bytes, s: Bytes)
    requires (r == [] || r[0] != quote) && (s == [] || s[0] != quote)
    requires Doubled(v, quote) + ([quote] + r) == Doubled(w, quote) + ([quote] + s)
    ensures v == w && r == s
    decreases |v|
  {
    if v == [] {
      EmptyIsDoubled(w, quote, r, s);
    } else if w == [] {
      EmptyIsDoubled(v, quote, s, r);
    } else {
      DoubledStep(v, quote, [quote] + r);
      DoubledStep(w, quote, [quote] + s);
      DoubledIsPrefixFree(v[1..], w[1..], quote, r, s);
      assert v == [v[0]] + v[1..] && w == [w[0]] + w[1..];
    }
  }

  lemma EmptyIsDoubled(w: Bytes, quote: Byte, r: Bytes, s: Bytes)
    requires r == [] || r[0] != quote
    requires Doubled([], quote) + ([quote] + r) == Doubled(w, quote) + ([quote] + s)
    ensures w == [] && r == s
  {
    var text := [quote] + r;
    assert Doubled([], quote) + text == text;
    assert text[0] == quote && (|text| > 1 ==> text[1] != quote);
    if w == [] {
      assert Doubled(w, quote) + ([quote] + s) == [quote] + s;
      assert text[1..] == r && ([quote] + s)[1..] == s;
    } else {
      DoubledStep(w, quote, [quote] + s);
    }
  }

  /** The first byte of a doubling says how much of it belongs to the first byte of the value. */
  lemma DoubledStep(v: Bytes, quote: Byte, rest: Bytes)
    requires v != []
    ensures var text, n := Doubled(v, quote) + rest, if v[0] == quote then 2 else 1;
            && |text| >= n && text[0] == v[0] && (n == 2 ==> text[1] == quote)
            && text[n..] == Doubled(v[1..], quote) + rest
  {
    var head := if v[0] == quote then [v[0], v[0]] else [v[0]];
    Associative(head, Doubled(v[1..], quote), rest);
    assert (head + (Doubled(v[1..], quote) + rest))[|head|..] == Doubled(v[1..], quote) + rest;
  }

  lemma WordIsPrefixFree(v: Bytes, w: Bytes, r: Bytes, s: Bytes)
    requires BareWord(v) && BareWord(w) && EndsPart(r) && EndsPart(s) && v + r == w + s
    ensures v == w && r == s
  {
    WordRuns(v + r, 0, |v|);
    WordRuns(w + s, 0, |w|);
    assert v == (v + r)[..|v|] && w == (w + s)[..|w|];
    assert r == (v + r)[|v|..] && s == (w + s)[|w|..];
  }

  function QuoteOf(mysql: bool): Byte {
    if mysql then BACKTICK else QUOTE
  }

  lemma PartForms(mysql: bool, keyword: Bytes -> bool, alone: bool, v: Bytes, rest: Bytes)
    ensures var text, quote := PartSpelling(mysql, keyword, alone, v), QuoteOf(mysql);
            || (text == v && v != [] && BareWord(v) && (v + rest)[0] == v[0] != quote)
            || (text == Quoted(v, quote, quote, quote)
                && text + rest == [quote] + (Doubled(v, quote) + ([quote] + rest)))
  {
    var text, quote := PartSpelling(mysql, keyword, alone, v), QuoteOf(mysql);
    if text == Quoted(v, quote, quote, quote) {
      var d := Doubled(v, quote);
      Associative([quote] + d, [quote], rest);
      Associative([quote], d, [quote] + rest);
    }
  }

  /** No spelled part with what follows it can be cut in two ways. */
  lemma PartIsPrefixFree(mysql: bool, keyword: Bytes -> bool, a: bool, b: bool, v: Bytes, w: Bytes, r: Bytes, s: Bytes)
    requires EndsPart(r) && EndsPart(s)
    requires PartSpelling(mysql, keyword, a, v) + r == PartSpelling(mysql, keyword, b, w) + s
    ensures v == w && r == s
  {
    var quote := QuoteOf(mysql);
    var whole := PartSpelling(mysql, keyword, a, v) + r;
    PartForms(mysql, keyword, a, v, r);
    PartForms(mysql, keyword, b, w, s);
    hide PartSpelling, BareWord, Doubled, Quoted;
    if whole[0] != quote {
      WordIsPrefixFree(v, w, r, s);
    } else {
      var bodyV, bodyW := Doubled(v, quote) + ([quote] + r), Doubled(w, quote) + ([quote] + s);
      assert whole[1..] == bodyV;
      assert whole[1..] == bodyW;
      DoubledIsPrefixFree(v, w, quote, r, s);
    }
  }

  lemma PathSplit(mysql: bool, keyword: Bytes -> bool, alone: bool, parts: seq<Bytes>)
    requires parts != []
    ensures PathFrom(mysql, keyword, alone, parts)
         == PartSpelling(mysql, keyword, alone, parts[0]) + PathTail(mysql, keyword, alone, parts[1..])
    ensures EndsPart(PathTail(mysql, keyword, alone, parts[1..]))
  {
    hide PartSpelling;
    var text := PartSpelling(mysql, keyword, alone, parts[0]);
    if |parts| == 1 {
      assert text + [] == text;
    } else {
      Associative(text, [DOT], PathFrom(mysql, keyword, alone, parts[1..]));
    }
  }

  lemma {:induction false} SamePath(mysql: bool, keyword: Bytes -> bool, a: bool, b: bool, p: seq<Bytes>, q: seq<Bytes>)
    requires p != [] && q != [] && PathFrom(mysql, keyword, a, p) == PathFrom(mysql, keyword, b, q)
    ensures p == q
    decreases |p|
  {
    hide PartSpelling, PathFrom, EndsPart;
    var r, s := PathTail(mysql, keyword, a, p[1..]), PathTail(mysql, keyword, b, q[1..]);
    PathSplit(mysql, keyword, a, p);
    PathSplit(mysql, keyword, b, q);
    PartIsPrefixFree(mysql, keyword, a, b, p[0], q[0], r, s);
    if p[1..] != [] && q[1..] != [] {
      assert r[1..] == PathFrom(mysql, keyword, a, p[1..]) && s[1..] == PathFrom(mysql, keyword, b, q[1..]);
      SamePath(mysql, keyword, a, b, p[1..], q[1..]);
    }
    assert p == [p[0]] + p[1..] && q == [q[0]] + q[1..];
  }

  /** Rendering is injective in every dialect, whatever the keywords are. */
  lemma PathsAreInjective(mysql: bool, keyword: Bytes -> bool, p: seq<Bytes>, q: seq<Bytes>)
    requires p != [] && q != [] && Path(mysql, keyword, p) == Path(mysql, keyword, q)
    ensures p == q
  {
    SamePath(mysql, keyword, |p| == 1, |q| == 1, p, q);
  }
}

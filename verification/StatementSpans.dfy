/** Statement spans of a parsed source, and how they survive a rebase. */
module StatementSpans {
  import opened SourceEdits

  /** A statement slot of the parse result: `Unusable` when it is NULL, of another
      type or without a statement node, else RawStmt's coordinate pair.  A zero
      length means "to the end of the source". */
  datatype Span = Unusable | Span(location: int, length: int) {
    function End(sourceLength: int): int
      requires Span?
    {
      if length != 0 then location + length else sourceLength
    }
  }

  ghost predicate SpanInBounds(s: Span, sourceLength: int) {
    && s.Span?
    && 0 <= s.location <= sourceLength
    && 0 <= s.length <= sourceLength - s.location
  }

  ghost predicate Follows(s: Span, t: Span, sourceLength: int) {
    s.Span? && t.Span? && s.End(sourceLength) <= t.location
  }

  /** Ordered, disjoint, in bounds; only the last span may use the zero sentinel. */
  ghost predicate SpansWellFormed(spans: seq<Span>, sourceLength: int) {
    && spans != []
    && (forall i | 0 <= i < |spans| :: SpanInBounds(spans[i], sourceLength))
    && (forall i | 0 <= i < |spans| - 1 :: spans[i].Span? && spans[i].length != 0)
    && (forall i, j | 0 <= i < j < |spans| :: Follows(spans[i], spans[j], sourceLength))
  }

  ghost predicate Holds(s: Span, sourceLength: int, e: Edit) {
    s.Span? && s.location <= e.sourceStart && e.sourceEnd <= s.End(sourceLength)
  }

  ghost predicate Housed(spans: seq<Span>, sourceLength: int, e: Edit) {
    exists i | 0 <= i < |spans| :: Holds(spans[i], sourceLength, e)
  }

  /** Every edit lies inside some statement. */
  ghost predicate Covered(spans: seq<Span>, sourceLength: int, edits: seq<Edit>) {
    forall k {:trigger Housed(spans, sourceLength, edits[k])} | 0 <= k < |edits| ::
      Housed(spans, sourceLength, edits[k])
  }

  /** The first k spans pass the checks. */
  ghost predicate Checked(spans: seq<Span>, sourceLength: int, k: nat) {
    && k <= |spans|
    && (forall i | 0 <= i < k :: SpanInBounds(spans[i], sourceLength))
    && (forall i | 0 <= i < k && i < |spans| - 1 :: spans[i].Span? && spans[i].length != 0)
    && (forall i, j | 0 <= i < j < k :: Follows(spans[i], spans[j], sourceLength))
  }

  /** What the code tests of span k once the spans before it have passed. */
  ghost predicate NextFits(spans: seq<Span>, sourceLength: int, k: nat)
    requires k < |spans|
  {
    && SpanInBounds(spans[k], sourceLength)
    && (k < |spans| - 1 ==> spans[k].length != 0)
    && (0 < k ==> Follows(spans[k - 1], spans[k], sourceLength))
  }

  lemma CheckedStep(spans: seq<Span>, sourceLength: int, k: nat)
    requires Checked(spans, sourceLength, k) && k < |spans|
    ensures NextFits(spans, sourceLength, k) ==> Checked(spans, sourceLength, k + 1)
    ensures SpansWellFormed(spans, sourceLength) ==> NextFits(spans, sourceLength, k)
  {
    if NextFits(spans, sourceLength, k) {
      forall i | 0 <= i < k ensures Follows(spans[i], spans[k], sourceLength) {
        if i < k - 1 {
          assert Follows(spans[i], spans[k - 1], sourceLength);
          assert SpanInBounds(spans[k - 1], sourceLength);
        }
      }
    }
    if SpansWellFormed(spans, sourceLength) {
      assert SpanInBounds(spans[k], sourceLength);
      assert 0 < k ==> Follows(spans[k - 1], spans[k], sourceLength);
    }
  }

  /** An edit that starts between the end of one span and the end of the next can
      only be housed by that next span. */
  lemma OnlyCandidate(spans: seq<Span>, sourceLength: int, index: nat, e: Edit)
    requires SpansWellFormed(spans, sourceLength) && index < |spans| && e.sourceStart < e.sourceEnd
    requires index > 0 ==> spans[index - 1].End(sourceLength) <= e.sourceStart
    requires e.sourceStart < spans[index].End(sourceLength)
    ensures Housed(spans, sourceLength, e) ==> Holds(spans[index], sourceLength, e)
  {
    forall i | 0 <= i < |spans| && i != index ensures !Holds(spans[i], sourceLength, e) {
      assert index < i ==> Follows(spans[index], spans[i], sourceLength);
      assert i < index - 1 ==> Follows(spans[i], spans[index - 1], sourceLength);
      assert SpanInBounds(spans[index], sourceLength);
      assert index > 0 ==> SpanInBounds(spans[index - 1], sourceLength);
    }
  }

  lemma BeyondTheLast(spans: seq<Span>, sourceLength: int, e: Edit)
    requires SpansWellFormed(spans, sourceLength) && e.sourceStart < e.sourceEnd
    requires spans[|spans| - 1].End(sourceLength) <= e.sourceStart
    ensures !Housed(spans, sourceLength, e)
  {
    forall i | 0 <= i < |spans| ensures !Holds(spans[i], sourceLength, e) {
      if i < |spans| - 1 {
        assert Follows(spans[i], spans[|spans| - 1], sourceLength);
        assert SpanInBounds(spans[|spans| - 1], sourceLength);
      }
    }
  }

  /** Passes over the edits that start before the end of a span; each must lie in it. */
  method PassEdits(spans: seq<Span>, edits: seq<Edit>, oldLength: nat, index: nat, first: nat, previousEnd: int)
    returns (ok: bool, editIndex: nat)
    requires WellFormed(edits, oldLength) && index < |spans| && first <= |edits|
    requires SpanInBounds(spans[index], oldLength)
    requires previousEnd
          == if index == 0 then 0 else if spans[index - 1].Span? then spans[index - 1].End(oldLength) else -1
    requires previousEnd <= spans[index].location
    requires first < |edits| ==> previousEnd <= edits[first].sourceStart
    ensures first <= editIndex <= |edits|
    ensures ok ==> forall k | first <= k < editIndex :: Housed(spans, oldLength, edits[k])
    ensures ok ==> (editIndex < |edits| ==> spans[index].End(oldLength) <= edits[editIndex].sourceStart)
    ensures !ok ==> !(SpansWellFormed(spans, oldLength) && Covered(spans, oldLength, edits))
  {
    hide SpansWellFormed, WellFormed;
    var span := spans[index];
    var start := span.location;
    var end := if span.length != 0 then start + span.length else oldLength;
    editIndex := first;
    while editIndex < |edits| && edits[editIndex].sourceStart < end
      invariant first <= editIndex <= |edits|
      invariant forall k | first <= k < editIndex :: Housed(spans, oldLength, edits[k])
      invariant editIndex < |edits| ==> previousEnd <= edits[editIndex].sourceStart
    {
      var edit := edits[editIndex];
      NextEdit(edits, oldLength, editIndex);
      if edit.sourceStart < start || edit.sourceEnd > end {
        if SpansWellFormed(spans, oldLength) {
          PreviousSpan(spans, oldLength, index);
          OnlyCandidate(spans, oldLength, index, edit);
        }
        return false, editIndex;
      }
      assert Holds(spans[index], oldLength, edit);
      editIndex := editIndex + 1;
    }
    ok := true;
  }

  lemma NextEdit(edits: seq<Edit>, length: int, i: nat)
    requires WellFormed(edits, length) && i < |edits|
    ensures Proper(edits[i], length) && (i + 1 < |edits| ==> edits[i].sourceEnd <= edits[i + 1].sourceStart)
  {
    assert i + 1 < |edits| ==> Before(edits, i, i + 1);
  }

  lemma PreviousSpan(spans: seq<Span>, length: int, i: nat)
    requires SpansWellFormed(spans, length) && i < |spans|
    ensures i > 0 ==> spans[i - 1].Span?
  {
    assert i > 0 ==> SpanInBounds(spans[i - 1], length);
  }

  /** The check before the tree walk: it accepts exactly when the spans are well
      formed and every edit is inside one of them. */
  method StatementSpansValid(spans: seq<Span>, edits: seq<Edit>, oldLength: nat) returns (ok: bool)
    requires WellFormed(edits, oldLength)
    ensures ok <==> SpansWellFormed(spans, oldLength) && Covered(spans, oldLength, edits)
  {
    if |spans| == 0 {
      return false;
    }
    var editIndex, previousEnd := 0, 0;
    for index := 0 to |spans|
      invariant Checked(spans, oldLength, index)
      invariant previousEnd == if index == 0 then 0 else spans[index - 1].End(oldLength)
      invariant 0 <= previousEnd <= oldLength
      invariant 0 <= editIndex <= |edits|
      invariant forall k | 0 <= k < editIndex :: Housed(spans, oldLength, edits[k])
      invariant editIndex < |edits| ==> previousEnd <= edits[editIndex].sourceStart
    {
      var span := spans[index];
      CheckedStep(spans, oldLength, index);
      if span.Unusable? || span.location < 0 || span.length < 0 {
        return false;
      }
      var start := span.location;
      if start < previousEnd || start > oldLength || span.length > oldLength - start {
        return false;
      }
      if span.length == 0 && index + 1 != |spans| {
        return false;
      }
      var end := if span.length != 0 then start + span.length else oldLength;
      ok, editIndex := PassEdits(spans, edits, oldLength, index, editIndex, previousEnd);
      if !ok {
        return false;
      }
      previousEnd := end;
    }
    ok := editIndex == |edits|;
    if editIndex < |edits| {
      assert Proper(edits[editIndex], oldLength);
      BeyondTheLast(spans, oldLength, edits[editIndex]);
    }
  }

  // ----- the spans after the rebase

  /** One statement pair, its endpoint mapped from the original coordinates. */
  function RebasedSpan(edits: seq<Edit>, s: Span): Span
    requires s.Span?
  {
    Span(MapPoint(edits, s.location),
         if s.length == 0 then 0 else MapPoint(edits, s.location + s.length) - MapPoint(edits, s.location))
  }

  function RebasedSpans(edits: seq<Edit>, spans: seq<Span>): (r: seq<Span>)
    requires forall i | 0 <= i < |spans| :: spans[i].Span?
    ensures |r| == |spans|
    ensures forall i | 0 <= i < |spans| :: r[i] == RebasedSpan(edits, spans[i])
  {
    if spans == [] then []
    else RebasedSpans(edits, spans[..|spans| - 1]) + [RebasedSpan(edits, spans[|spans| - 1])]
  }

  /** No edit straddles a span border. */
  lemma BordersAccepted(edits: seq<Edit>, spans: seq<Span>, length: nat, i: nat)
    requires WellFormed(edits, length) && SpansWellFormed(spans, length) && Covered(spans, length, edits)
    requires i < |spans|
    ensures SpanInBounds(spans[i], length)
    ensures Accepted(edits, spans[i].location) && Accepted(edits, spans[i].End(length))
  {
    assert SpanInBounds(spans[i], length);
    forall k | 0 <= k < |edits|
      ensures !Covers(edits[k], spans[i].location) && !Covers(edits[k], spans[i].End(length))
    {
      assert Housed(spans, length, edits[k]);
      var j :| 0 <= j < |spans| && Holds(spans[j], length, edits[k]);
      if j < i {
        assert Follows(spans[j], spans[i], length);
      } else if i < j {
        assert Follows(spans[i], spans[j], length);
        assert SpanInBounds(spans[j], length);
      }
    }
  }

  /** Where a span goes: its start and end map to the start and end of the new
      span, and the sentinel stays a sentinel and nothing else becomes one. */
  lemma SpanMapped(edits: seq<Edit>, spans: seq<Span>, length: nat, i: nat)
    requires WellFormed(edits, length) && SpansWellFormed(spans, length) && Covered(spans, length, edits)
    requires i < |spans|
    ensures SpanInBounds(spans[i], length)
    ensures var s, r := spans[i], RebasedSpan(edits, spans[i]);
            && SpanInBounds(r, length + TotalDelta(edits))
            && r.location == MapPoint(edits, s.location)
            && r.End(length + TotalDelta(edits)) == MapPoint(edits, s.End(length))
            && (r.length == 0 <==> s.length == 0)
  {
    BordersAccepted(edits, spans, length, i);
    OneSpanMapped(edits, spans[i], length);
  }

  lemma OneSpanMapped(edits: seq<Edit>, s: Span, length: nat)
    requires WellFormed(edits, length) && SpanInBounds(s, length)
    requires Accepted(edits, s.location) && Accepted(edits, s.End(length))
    ensures var r := RebasedSpan(edits, s);
            && SpanInBounds(r, length + TotalDelta(edits))
            && r.location == MapPoint(edits, s.location)
            && r.End(length + TotalDelta(edits)) == MapPoint(edits, s.End(length))
            && (r.length == 0 <==> s.length == 0)
  {
    MapInBounds(edits, length, s.location);
    if s.length != 0 {
      MapStrict(edits, length, s.location, s.location + s.length);
    } else {
      MapEnds(edits, length);
    }
  }

  lemma SpansStayOrdered(edits: seq<Edit>, spans: seq<Span>, length: nat, i: nat, j: nat)
    requires WellFormed(edits, length) && SpansWellFormed(spans, length) && Covered(spans, length, edits)
    requires i < j < |spans|
    ensures spans[i].Span? && spans[j].Span?
    ensures Follows(RebasedSpan(edits, spans[i]), RebasedSpan(edits, spans[j]), length + TotalDelta(edits))
  {
    SpanMapped(edits, spans, length, i);
    SpanMapped(edits, spans, length, j);
    BordersAccepted(edits, spans, length, i);
    BordersAccepted(edits, spans, length, j);
    assert Follows(spans[i], spans[j], length);
    if spans[i].End(length) < spans[j].location {
      MapStrict(edits, length, spans[i].End(length), spans[j].location);
    }
  }

  /** The rebased spans are well formed in the new text. */
  lemma SpansSurvive(edits: seq<Edit>, spans: seq<Span>, length: nat)
    requires WellFormed(edits, length) && SpansWellFormed(spans, length) && Covered(spans, length, edits)
    ensures forall i | 0 <= i < |spans| :: spans[i].Span?
    ensures SpansWellFormed(RebasedSpans(edits, spans), length + TotalDelta(edits))
  {
    assert forall i | 0 <= i < |spans| :: SpanInBounds(spans[i], length);
    var r := RebasedSpans(edits, spans);
    forall i | 0 <= i < |spans|
      ensures SpanInBounds(r[i], length + TotalDelta(edits)) && (i < |spans| - 1 ==> r[i].length != 0)
    {
      SpanMapped(edits, spans, length, i);
    }
    forall i, j | 0 <= i < j < |spans| ensures Follows(r[i], r[j], length + TotalDelta(edits)) {
      SpansStayOrdered(edits, spans, length, i, j);
    }
  }

  /** The new text of a statement is its old text with exactly its own edits applied. */
  lemma StatementText(source: string, edits: seq<Edit>, spans: seq<Span>, i: nat)
    requires WellFormed(edits, |source|) && SpansWellFormed(spans, |source|) && Covered(spans, |source|, edits)
    requires i < |spans|
    ensures SpanInBounds(spans[i], |source|)
    ensures SpanInBounds(RebasedSpan(edits, spans[i]), |Edited(source, edits)|)
    ensures var s, r := spans[i], RebasedSpan(edits, spans[i]);
            var lo, hi := PrefixCount(edits, s.location), PrefixCount(edits, s.End(|source|));
            && Inside(edits, lo, hi, s.location, s.End(|source|))
            && (forall k | 0 <= k < |edits| :: lo <= k < hi <==> Holds(s, |source|, edits[k]))
            && Edited(source, edits)[r.location..r.End(|Edited(source, edits)|)]
               == EditedBetween(source, edits, lo, hi, s.location, s.End(|source|))
  {
    var s := spans[i];
    SpanMapped(edits, spans, |source|, i);
    BordersAccepted(edits, spans, |source|, i);
    SpanText(source, edits, s);
    forall k | 0 <= k < |edits|
      ensures PrefixCount(edits, s.location) <= k < PrefixCount(edits, s.End(|source|))
           <==> Holds(s, |source|, edits[k])
    {
      OwnEdits(edits, |source|, s, k);
    }
  }

  lemma SpanText(source: string, edits: seq<Edit>, s: Span)
    requires WellFormed(edits, |source|) && SpanInBounds(s, |source|)
    requires Accepted(edits, s.location) && Accepted(edits, s.End(|source|))
    ensures |Edited(source, edits)| == |source| + TotalDelta(edits)
    ensures var p, q := s.location, s.End(|source|);
            && Inside(edits, PrefixCount(edits, p), PrefixCount(edits, q), p, q)
            && 0 <= MapPoint(edits, p) <= MapPoint(edits, q) <= |Edited(source, edits)|
            && Edited(source, edits)[MapPoint(edits, p)..MapPoint(edits, q)]
               == EditedBetween(source, edits, PrefixCount(edits, p), PrefixCount(edits, q), p, q)
  {
    FragmentMeaning(source, edits, s.location, s.End(|source|));
    EditedWhole(source, edits);
  }

  /** The edits counted between the borders of a span are the edits it holds. */
  lemma OwnEdits(edits: seq<Edit>, length: nat, s: Span, k: nat)
    requires WellFormed(edits, length) && SpanInBounds(s, length) && k < |edits|
    requires Accepted(edits, s.location) && Accepted(edits, s.End(length))
    ensures PrefixCount(edits, s.location) <= k < PrefixCount(edits, s.End(length)) <==> Holds(s, length, edits[k])
  {
    CountedBefore(edits, length, s.location, k);
    CountedBefore(edits, length, s.End(length), k);
  }
}

/** What a finished rebase means for the text, for the statements and for an undo. */
module RebaseMeaning {
  import opened Wrappers
  import opened SourceEdits
  import opened InverseEdits
  import opened StatementSpans
  import opened ProtoTree
  import opened RebaseCursor
  import opened RebasePlan
  import opened TreeRebase
  import opened RebaseTransaction

  /** A location the rebase lets through points at the same text as before: what
      precedes it and what follows it are the old prefix and suffix, edited. */
  lemma LocationMeaning(source: string, s: Setting, before: Snapshot, m: Message, i: nat)
    requires |source| == s.oldLength && Valid(s.edits, s.oldLength, s.newLength)
    requires OwnOk(s, before, m) && i < |before[m]| && Locates(m, i) && before[m][i] >= 0
    ensures var p, r := before[m][i], Rebased(s.edits, m, before[m], i);
            var k, target := PrefixCount(s.edits, p), Edited(source, s.edits);
            && 0 <= p <= |source| && 0 <= r <= |target| == s.newLength
            && Inside(s.edits, 0, k, 0, p) && Inside(s.edits, k, |s.edits|, p, |source|)
            && target[..r] == EditedBetween(source, s.edits, 0, k, 0, p)
            && target[r..] == EditedBetween(source, s.edits, k, |s.edits|, p, |source|)
  {
    var p := before[m][i];
    LocationAccepted(s, before, m, i);
    TextAroundPoint(source, s.edits, p);
  }

  lemma LocationAccepted(s: Setting, before: Snapshot, m: Message, i: nat)
    requires Valid(s.edits, s.oldLength, s.newLength)
    requires OwnOk(s, before, m) && i < |before[m]| && Locates(m, i) && before[m][i] >= 0
    ensures PointAccepted(s.edits, s.oldLength, before[m][i])
    ensures Rebased(s.edits, m, before[m], i) == MapPoint(s.edits, before[m][i])
  {
    hide Valid, MapPoint, PairOk;
    assert m.Window().value.0 <= i < m.Window().value.1;
    assert FieldOk(s, m, before[m], i);
  }

  lemma TextAroundPoint(source: string, edits: seq<Edit>, p: nat)
    requires WellFormed(edits, |source|) && p <= |source| && Accepted(edits, p)
    ensures var k, r, target := PrefixCount(edits, p), MapPoint(edits, p), Edited(source, edits);
            && 0 <= r <= |target| == |source| + TotalDelta(edits)
            && Inside(edits, 0, k, 0, p) && Inside(edits, k, |edits|, p, |source|)
            && target[..r] == EditedBetween(source, edits, 0, k, 0, p)
            && target[r..] == EditedBetween(source, edits, k, |edits|, p, |source|)
  {
    hide WellFormed, Accepted, Gap, Inside, Edited, EditedBetween, PrefixCount;
    var k, target := PrefixCount(edits, p), Edited(source, edits);
    CountBound(edits, p);
    var r := p + DeltaUpTo(edits, k);
    AcceptedGap(edits, |source|, p);
    OuterGaps(edits, |source|);
    GapMeaning(source, edits, 0, 0, k, p);
    GapMeaning(source, edits, k, p, |edits|, |source|);
    OuterSlices(target, r);
  }

  lemma OuterSlices(s: string, r: nat)
    requires r <= |s|
    ensures s[0..r] == s[..r] && s[r..|s|] == s[r..]
  {
  }

  // ----- statements

  /** The snapshot after the rebase, on the messages it rewrote. */
  ghost predicate After(edits: seq<Edit>, before: Snapshot, after: Snapshot, m: Message) {
    && m in before && m in after && |before[m]| == |m.descriptor.fields|
    && (m.descriptor.IsStatement() ==> m.descriptor.HasPair())
    && after[m] == RebasedScalars(edits, m, before[m])
  }

  /** The rebased parse result again has ordered, disjoint, in-bounds statements,
      each the image of its old span. */
  lemma StatementsStayValid(s: Setting, before: Snapshot, after: Snapshot, ast: Message, spans: seq<Span>)
    requires Valid(s.edits, s.oldLength, s.newLength)
    requires SpansOf(StatementItems(ast), before, spans)
    requires SpansWellFormed(spans, s.oldLength) && Covered(spans, s.oldLength, s.edits)
    requires AllAfter(s.edits, before, after, StatementItems(ast))
    ensures forall i | 0 <= i < |spans| :: spans[i].Span?
    ensures SpansOf(StatementItems(ast), after, RebasedSpans(s.edits, spans))
    ensures SpansWellFormed(RebasedSpans(s.edits, spans), s.newLength)
  {
    hide SpansOf, AllAfter, StatementItems, Covered, WellFormed, SpansWellFormed, Valid, RebasedSpans, TotalDelta;
    ValidParts(s);
    SpansSurvive(s.edits, spans, s.oldLength);
    InBoundsAll(spans, s.oldLength);
    SpansFollow(s.edits, before, after, StatementItems(ast), spans, s.oldLength);
  }

  lemma ValidParts(s: Setting)
    requires Valid(s.edits, s.oldLength, s.newLength)
    ensures WellFormed(s.edits, s.oldLength) && s.newLength == s.oldLength + TotalDelta(s.edits)
  {
  }

  lemma InBoundsAll(spans: seq<Span>, length: int)
    requires SpansWellFormed(spans, length)
    ensures forall i | 0 <= i < |spans| :: SpanInBounds(spans[i], length)
  {
  }

  ghost predicate AllAfter(edits: seq<Edit>, before: Snapshot, after: Snapshot, items: seq<Message?>) {
    forall i | 0 <= i < |items| :: items[i] != null ==> After(edits, before, after, items[i])
  }

  lemma SpansFollow(edits: seq<Edit>, before: Snapshot, after: Snapshot, items: seq<Message?>, spans: seq<Span>,
                    length: int)
    requires SpansOf(items, before, spans) && AllAfter(edits, before, after, items)
    requires forall i | 0 <= i < |spans| :: SpanInBounds(spans[i], length)
    ensures forall i | 0 <= i < |spans| :: spans[i].Span?
    ensures SpansOf(items, after, RebasedSpans(edits, spans))
  {
    hide After, SpanOf, RebasedSpan;
    assert forall i | 0 <= i < |spans| :: spans[i].Span? by {
      assert forall i | 0 <= i < |spans| :: SpanInBounds(spans[i], length);
    }
    forall i | 0 <= i < |items| ensures RebasedSpans(edits, spans)[i] == SpanOf(items[i], after) {
      assert spans[i] == SpanOf(items[i], before) && SpanInBounds(spans[i], length);
      UsableStatement(items[i], before);
      OneStatement(edits, before, after, items[i]);
    }
  }

  lemma UsableStatement(raw: Message?, before: Snapshot)
    ensures SpanOf(raw, before).Span? ==> raw != null
  {
  }

  lemma OneStatement(edits: seq<Edit>, before: Snapshot, after: Snapshot, raw: Message)
    requires After(edits, before, after, raw) && SpanOf(raw, before).Span?
    requires SpanOf(raw, before).location >= 0
    ensures SpanOf(raw, after) == RebasedSpan(edits, SpanOf(raw, before))
  {
    hide MapPoint;
  }

  // ----- from the plan to the statements

  /** The statements of a parse result are among the messages that are rewritten. */
  lemma StatementsInGroup(before: Snapshot, ast: Message, group: set<Message>)
    requires ast.Shaped() && ast.descriptor.kind == ParseResultKind && ast in group && Closed(group)
    ensures forall i | 0 <= i < |StatementItems(ast)| && StatementItems(ast)[i] != null ::
              StatementItems(ast)[i] in group
  {
    var body, items := ast.descriptor.body, StatementItems(ast);
    assert ast.ActivityOf(body) == Active && ast.Visits(body) && ast.IsActive(body);
    forall i | 0 <= i < |items| && items[i] != null
      ensures items[i] in group
    {
      assert items[i] in NonNull(ast.members[body]);
      assert items[i] in ast.KidsAt(body);
      assert items[i] in ast.Kids();
    }
  }

  ghost function Current(before: Snapshot): (r: Snapshot)
    reads before.Keys
    ensures r.Keys == before.Keys && forall x | x in before :: r[x] == x.scalars
  {
    map x | x in before :: x.scalars
  }

  /** The statements stand in order in the new text, each where its old span went. */
  ghost predicate StatementsMoved(s: Setting, before: Snapshot, after: Snapshot, ast: Message) {
    exists spans: seq<Span> ::
      && (forall i | 0 <= i < |spans| :: spans[i].Span?)
      && SpansOf(StatementItems(ast), before, spans) && SpansWellFormed(spans, s.oldLength)
      && SpansOf(StatementItems(ast), after, RebasedSpans(s.edits, spans))
      && SpansWellFormed(RebasedSpans(s.edits, spans), s.newLength)
  }

  lemma MovedByRebase(s: Setting, before: Snapshot, after: Snapshot, ast: Message, group: set<Message>)
    requires Valid(s.edits, s.oldLength, s.newLength) && StatementsOk(s, before, ast)
    requires forall x | x in group :: After(s.edits, before, after, x)
    requires forall i | 0 <= i < |StatementItems(ast)| && StatementItems(ast)[i] != null ::
               StatementItems(ast)[i] in group
    ensures StatementsMoved(s, before, after, ast)
  {
    hide After, SpansOf, SpansWellFormed, Covered, StatementItems, RebasedSpans, Valid;
    var spans: seq<Span> :| SpansOf(StatementItems(ast), before, spans) && SpansWellFormed(spans, s.oldLength)
                            && Covered(spans, s.oldLength, s.edits);
    StatementsStayValid(s, before, after, ast, spans);
  }

  lemma GroupFacts(edits: seq<Edit>, before: Snapshot, group: set<Message>, writes: seq<Write>, ast: Message)
    requires Certified(edits, before, group, [], writes) && Rooted({ast}, group)
    ensures group <= before.Keys && Closed(group) && ast in group
    ensures forall x | x in group :: && x in before && |before[x]| == |x.descriptor.fields|
                                     && (x.descriptor.IsStatement() ==> x.descriptor.HasPair())
  {
    GroupDone(edits, before, group, writes);
  }

  /** Slot by slot, what a rebase does to one message.  An active, single int32 field
      of the name "location" or "name_location" is mapped once, unless it is negative;
      the pair of a RawStmt or Query moves by its two ends; all else stays. */
  ghost predicate Reanchored(edits: seq<Edit>, m: Message, was: seq<int>, now: seq<int>) {
    var d := m.descriptor;
    && |was| == |now| == |d.fields|
    && (forall i | 0 <= i < |d.fields| ::
          var f := d.fields[i];
          if (f.name == Some("location") || f.name == Some("name_location"))
             && f.fieldType == Int32Field && f.cardinality != Repeated && m.IsActive(i)
          then now[i] == if was[i] < 0 then was[i] else MapPoint(edits, was[i])
          else if d.kind == RawStmtKind || d.kind == QueryKind
          then i != d.stmtLocation && i != d.stmtLen ==> now[i] == was[i]
          else now[i] == was[i])
    && (d.kind == RawStmtKind || d.kind == QueryKind ==>
          && d.stmtLocation < |d.fields| && d.fields[d.stmtLocation].name == Some("stmt_location")
          && d.stmtLen < |d.fields| && d.fields[d.stmtLen].name == Some("stmt_len")
          && var location, length := was[d.stmtLocation], was[d.stmtLen];
             && now[d.stmtLocation] == (if location < 0 then location else MapPoint(edits, location))
             && now[d.stmtLen] == (if length == 0 then 0
                                   else MapPoint(edits, location + length) - MapPoint(edits, location)))
  }

  lemma RebasedMeans(edits: seq<Edit>, m: Message, scalars: seq<int>)
    requires |scalars| == |m.descriptor.fields| && (m.descriptor.IsStatement() ==> m.descriptor.HasPair())
    ensures Reanchored(edits, m, scalars, RebasedScalars(edits, m, scalars))
  {
    hide MapPoint, Message.IsActive;
  }

  /** The whole rebase: the plan is built, the other preparations of the patch are
      made, and only if both succeed the plan is applied.  Then exactly the messages
      below the parse result are rebased and its statements stand well formed in the
      new text; in every other case no message is touched. */
  method RebaseResult(plan: Plan, ast: Message?, s: Setting, prepared: bool, ghost before: Snapshot)
    returns (outcome: Outcome, done: bool)
    requires plan.Valid() && Describes(before) && (ast != null ==> ast in before)
    requires ast != null ==> StatementsKnown(ast, before)
    modifies plan, plan.inlineWrites, before.Keys
    ensures plan.Valid() && plan.Contents() == []
    ensures outcome == Ready ==> EligibleResult(s, before, ast)
    ensures outcome == Miss ==> !EligibleResult(s, before, ast)
    ensures outcome == OutOfMemory ==> ast != null && Total(s.edits, before, ast, 0) > INLINE_WRITES
    ensures done <==> outcome == Ready && prepared
    ensures !done ==> forall x | x in before :: x.scalars == before[x]
    ensures done ==> ast != null && StatementsMoved(s, before, Current(before), ast)
    ensures done ==> forall x | x in before ::
              if Below(ast, x) then Reanchored(s.edits, x, before[x], x.scalars) else x.scalars == before[x]
  {
    hide Certified, Rooted, Eligible, Closed, Below, RebasedScalars, StatementsOk, StatementItems, StatementsMoved,
         Reanchored, Total, Plan.Valid, Message.Shaped;
    ghost var group;
    outcome, group := Build(plan, ast, s, before);
    done := outcome == Ready && prepared;
    if done {
      GroupFacts(s.edits, before, group, plan.Contents(), ast);
      StatementsInGroup(before, ast, group);
      Apply(plan, s.edits, before, group);
      MovedByRebase(s, before, Current(before), ast, group);
      forall x | x in before
        ensures x in group <==> Below(ast, x)
      {
        GroupIsReachable(ast, group, x);
      }
      forall x | x in group
        ensures Reanchored(s.edits, x, before[x], x.scalars)
      {
        RebasedMeans(s.edits, x, before[x]);
      }
    }
    plan.Release();
  }

  // ----- undo

  /** Rebasing a message back along the inverse edits restores every slot. */
  lemma UndoRestoresScalars(source: string, s: Setting, before: Snapshot, m: Message, i: nat)
    requires |source| == s.oldLength && Valid(s.edits, s.oldLength, s.newLength)
    requires OwnOk(s, before, m) && i < |before[m]|
    ensures Rebased(Inverse(source, s.edits), m, RebasedScalars(s.edits, m, before[m]), i) == before[m][i]
  {
    hide Valid, WellFormed, MapPoint, Inverse, FieldsOk;
    var d, scalars := m.descriptor, before[m];
    if d.IsStatement() && (i == d.stmtLocation || i == d.stmtLen) {
      var location, length := scalars[d.stmtLocation], scalars[d.stmtLen];
      if location >= 0 {
        ThereAndBack(source, s, location);
      }
      if length > 0 {
        ThereAndBack(source, s, location + length);
        EndBehindStart(s.edits, s.oldLength, s.newLength, location, length);
      }
    } else if Locates(m, i) && scalars[i] >= 0 {
      LocationAccepted(s, before, m, i);
      ThereAndBack(source, s, scalars[i]);
    }
  }

  lemma ThereAndBack(source: string, s: Setting, p: int)
    requires |source| == s.oldLength && Valid(s.edits, s.oldLength, s.newLength)
    requires PointAccepted(s.edits, s.oldLength, p)
    ensures WellFormed(s.edits, |source|)
    ensures 0 <= MapPoint(s.edits, p) <= s.newLength
    ensures MapPoint(Inverse(source, s.edits), MapPoint(s.edits, p)) == p
  {
    MapThereAndBack(source, s.edits, p);
    MapInBounds(s.edits, s.oldLength, p);
  }
}

/** The two phases of a rebase over a whole parse result. */
module RebaseTransaction {
  import opened SourceEdits
  import opened StatementSpans
  import opened ProtoTree
  import opened RebasePlan
  import opened TreeRebase

  datatype Outcome = Ready | Miss | OutOfMemory

  // ----- the statement slots of the parse result

  ghost function StatementItems(m: Message): seq<Message?> {
    if m.descriptor.body < |m.members| && m.members[m.descriptor.body].Array? then m.members[m.descriptor.body].items
    else []
  }

  ghost predicate StatementsKnown(m: Message, before: Snapshot) {
    forall i | 0 <= i < |StatementItems(m)| && StatementItems(m)[i] != null :: StatementItems(m)[i] in before
  }

  /** RawStmt's pair, or Unusable for a slot the rebase cannot certify. */
  ghost function SpanOf(raw: Message?, before: Snapshot): Span {
    if raw == null || raw !in before || raw.descriptor.kind != RawStmtKind || !raw.descriptor.HasPair()
       || |before[raw]| != |raw.descriptor.fields|
       || raw.descriptor.body >= |raw.members| || raw.members[raw.descriptor.body] == Single(null)
    then Unusable
    else Span(before[raw][raw.descriptor.stmtLocation], before[raw][raw.descriptor.stmtLen])
  }

  ghost predicate SpansOf(items: seq<Message?>, before: Snapshot, spans: seq<Span>) {
    |spans| == |items| && forall i | 0 <= i < |items| :: spans[i] == SpanOf(items[i], before)
  }

  ghost predicate StatementsOk(s: Setting, before: Snapshot, ast: Message) {
    exists spans :: SpansOf(StatementItems(ast), before, spans) && SpansWellFormed(spans, s.oldLength)
                    && Covered(spans, s.oldLength, s.edits)
  }

  /** What is tested before the walk. */
  ghost predicate Admitted(s: Setting, before: Snapshot, ast: Message?) {
    && ast != null
    && ast.descriptor.kind == ParseResultKind
    && Valid(s.edits, s.oldLength, s.newLength)
    && StatementsOk(s, before, ast)
  }

  /** What a parse result must satisfy to be rebased without a new parse. */
  ghost predicate EligibleResult(s: Setting, before: Snapshot, ast: Message?) {
    Admitted(s, before, ast) && Eligible(s, before, ast, 0, false, false)
  }

  method ReadSpans(items: seq<Message?>, ghost before: Snapshot) returns (spans: seq<Span>)
    requires Describes(before) && forall i | 0 <= i < |items| && items[i] != null :: items[i] in before
    ensures SpansOf(items, before, spans)
  {
    spans := [];
    for i := 0 to |items|
      invariant |spans| == i && forall k | 0 <= k < i :: spans[k] == SpanOf(items[k], before)
    {
      var raw := items[i];
      if raw == null || raw.descriptor.kind != RawStmtKind || raw.members[raw.descriptor.body] == Single(null) {
        spans := spans + [Unusable];
      } else {
        spans := spans + [Span(raw.scalars[raw.descriptor.stmtLocation], raw.scalars[raw.descriptor.stmtLen])];
      }
    }
  }

  /** The check of all statement spans against the edits. */
  method SpansCertified(s: Setting, ast: Message, ghost before: Snapshot) returns (ok: bool)
    requires Describes(before) && ast in before && ast.descriptor.kind == ParseResultKind
    requires StatementsKnown(ast, before)
    requires Valid(s.edits, s.oldLength, s.newLength)
    ensures ok <==> StatementsOk(s, before, ast)
  {
    assert ast.Shaped();
    match ast.members[ast.descriptor.body] {
      case Array(items) =>
        assert items == StatementItems(ast);
        var spans := ReadSpans(items, before);
        ok := StatementSpansValid(spans, s.edits, s.oldLength);
        SameSpans(s, before, ast, spans);
      case _ =>
        NoStatements(s, before, ast);
        return false;
    }
  }

  lemma SameSpans(s: Setting, before: Snapshot, ast: Message, spans: seq<Span>)
    requires SpansOf(StatementItems(ast), before, spans)
    ensures StatementsOk(s, before, ast)
       <==> SpansWellFormed(spans, s.oldLength) && Covered(spans, s.oldLength, s.edits)
  {
    forall other | SpansOf(StatementItems(ast), before, other) ensures other == spans {
    }
  }

  lemma NoStatements(s: Setting, before: Snapshot, ast: Message)
    requires StatementItems(ast) == []
    ensures !StatementsOk(s, before, ast)
  {
  }

  /** The tests before the walk. */
  method Admit(ast: Message?, s: Setting, ghost before: Snapshot) returns (ok: bool)
    requires Describes(before) && (ast != null ==> ast in before && StatementsKnown(ast, before))
    ensures ok <==> Admitted(s, before, ast)
  {
    if ast == null || ast.descriptor.kind != ParseResultKind {
      return false;
    }
    ok := EditsValid(s.edits, s.oldLength, s.newLength);
    if ok {
      ok := SpansCertified(s, ast, before);
    }
  }

  /** Phase one: reads the tree, fills the plan, and never writes a message.  On
      anything but `Ready` the plan is released. */
  method Build(plan: Plan, ast: Message?, s: Setting, ghost before: Snapshot)
    returns (outcome: Outcome, ghost group: set<Message>)
    requires plan.Valid() && Describes(before) && (ast != null ==> ast in before)
    requires ast != null ==> StatementsKnown(ast, before)
    modifies plan, plan.inlineWrites
    ensures plan.Valid()
    ensures outcome == Ready ==> EligibleResult(s, before, ast)
    ensures outcome == Ready ==> Certified(s.edits, before, group, [], plan.Contents()) && Rooted({ast}, group)
    ensures outcome == Miss ==> !EligibleResult(s, before, ast)
    ensures outcome == Ready ==> |plan.Contents()| == Total(s.edits, before, ast, 0)
    ensures outcome == OutOfMemory ==> ast != null && Total(s.edits, before, ast, 0) > INLINE_WRITES
    ensures outcome != Ready ==> plan.Contents() == [] && plan.items == null
  {
    hide Eligible, Certified, Rooted, WellFormed, StatementsOk, Valid, Total, Plan.Contents, Plan.Valid;
    group := {};
    plan.Release();
    var ok := Admit(ast, s, before);
    if !ok {
      return Miss, group;
    }
    outcome, group := Fill(plan, ast, s, before);
    if outcome != Ready {
      plan.Release();
    }
  }

  /** Fills the plan by one walk of the tree. */
  method Fill(plan: Plan, ast: Message, s: Setting, ghost before: Snapshot)
    returns (outcome: Outcome, ghost group: set<Message>)
    requires plan.Valid() && Describes(before) && ast in before
    requires Valid(s.edits, s.oldLength, s.newLength)
    modifies plan, plan.inlineWrites
    ensures plan.Valid()
    ensures outcome == Ready ==> && Eligible(s, before, ast, 0, false, false)
                                 && Certified(s.edits, before, group, [], plan.Contents()) && Rooted({ast}, group)
                                 && |plan.Contents()| == Total(s.edits, before, ast, 0)
    ensures outcome == Miss ==> !Eligible(s, before, ast, 0, false, false)
    ensures outcome == OutOfMemory ==> Total(s.edits, before, ast, 0) > INLINE_WRITES
  {
    hide Eligible, Certified, Rooted, Describes, Valid, Total, Plan.Contents, Plan.Valid;
    plan.Start();
    var context := new Rebase(s, plan);
    var ok;
    ok, group := context.Walk(ast, false, 0, false, false, before);
    outcome := if ok then Ready else if context.noMemory then OutOfMemory else Miss;
  }

  // ----- applying the plan

  /** A message's scalars after the rebase. */
  ghost function RebasedScalars(edits: seq<Edit>, m: Message, scalars: seq<int>): (r: seq<int>)
    requires |scalars| == |m.descriptor.fields| && (m.descriptor.IsStatement() ==> m.descriptor.HasPair())
    ensures |r| == |scalars|
  {
    seq(|scalars|, i requires 0 <= i < |scalars| == |m.descriptor.fields|
                              && (m.descriptor.IsStatement() ==> m.descriptor.HasPair()) =>
          Rebased(edits, m, scalars, i))
  }

  /** A message's scalars once the first k stores are done. */
  ghost function Partly(writes: seq<Write>, k: nat, m: Message, scalars: seq<int>): seq<int>
    requires k <= |writes|
  {
    if k == 0 then scalars
    else
      var r := Partly(writes, k - 1, m, scalars);
      var w := writes[k - 1];
      if w.owner == m && w.field < |r| then r[w.field := w.value] else r
  }

  lemma {:induction false} PartlyAt(edits: seq<Edit>, before: Snapshot, group: set<Message>, writes: seq<Write>,
                                    k: nat, m: Message, i: nat)
    requires Grown(edits, before, group, [], writes) && k <= |writes|
    requires m in before && i < |before[m]| == |m.descriptor.fields|
    requires m.descriptor.IsStatement() ==> m.descriptor.HasPair()
    ensures |Partly(writes, k, m, before[m])| == |before[m]|
    ensures Partly(writes, k, m, before[m])[i]
         == if exists j | 0 <= j < k :: writes[j].owner == m && writes[j].field == i
            then Rebased(edits, m, before[m], i)
            else before[m][i]
  {
    hide Rebased;
    if k > 0 {
      PartlyAt(edits, before, group, writes, k - 1, m, i);
      assert RightWrite(edits, before, group, writes[k - 1]);
    }
  }

  /** All stores together produce the rebased scalars. */
  lemma PartlyAll(edits: seq<Edit>, before: Snapshot, group: set<Message>, writes: seq<Write>, m: Message)
    requires Certified(edits, before, group, [], writes) && m in group
    ensures m in before && |before[m]| == |m.descriptor.fields|
    ensures m.descriptor.IsStatement() ==> m.descriptor.HasPair()
    ensures Partly(writes, |writes|, m, before[m]) == RebasedScalars(edits, m, before[m])
  {
    hide Rebased, Partly;
    assert Planned(edits, before, writes, m);
    var r := Partly(writes, |writes|, m, before[m]);
    forall i | 0 <= i < |before[m]| ensures |r| == |before[m]| && r[i] == Rebased(edits, m, before[m], i) {
      PartlyAt(edits, before, group, writes, |writes|, m, i);
    }
    LengthKept(writes, |writes|, m, before[m]);
  }

  lemma {:induction false} LengthKept(writes: seq<Write>, k: nat, m: Message, scalars: seq<int>)
    requires k <= |writes|
    ensures |Partly(writes, k, m, scalars)| == |scalars|
  {
    if k > 0 {
      LengthKept(writes, k - 1, m, scalars);
    }
  }

  lemma PartlyStep(writes: seq<Write>, k: nat, m: Message, scalars: seq<int>)
    requires k < |writes| && (writes[k].owner == m ==> writes[k].field < |scalars|)
    ensures |Partly(writes, k, m, scalars)| == |scalars|
    ensures Partly(writes, k + 1, m, scalars)
         == if writes[k].owner == m then Partly(writes, k, m, scalars)[writes[k].field := writes[k].value]
            else Partly(writes, k, m, scalars)
  {
    LengthKept(writes, k, m, scalars);
  }

  lemma GroupKnown(edits: seq<Edit>, before: Snapshot, group: set<Message>, writes: seq<Write>)
    requires Certified(edits, before, group, [], writes)
    ensures forall x | x in group :: x in before && Partly(writes, 0, x, before[x]) == before[x]
  {
  }

  lemma WriteKnown(edits: seq<Edit>, before: Snapshot, group: set<Message>, writes: seq<Write>, k: nat)
    requires Certified(edits, before, group, [], writes) && k < |writes|
    ensures writes[k].owner != null && writes[k].owner in group && writes[k].owner in before
    ensures writes[k].field < |before[writes[k].owner]| && Fits(writes[k].value)
    ensures |Partly(writes, k, writes[k].owner, before[writes[k].owner])| == |before[writes[k].owner]|
  {
    assert RightWrite(edits, before, group, writes[k]);
    LengthKept(writes, k, writes[k].owner, before[writes[k].owner]);
  }

  /** Phase two: performs the planned stores; no walk and no failure. */
  method Apply(plan: Plan, ghost edits: seq<Edit>, ghost before: Snapshot, ghost group: set<Message>)
    requires plan.Valid() && Describes(before)
    requires Certified(edits, before, group, [], plan.Contents())
    modifies group
    ensures forall x | x in group :: x in before && x.scalars == RebasedScalars(edits, x, before[x])
    ensures forall x | x in before && x !in group :: x.scalars == before[x]
  {
    hide Rebased, RebasedScalars, Planned, Closed, Partly, Grown, RightWrite, Certified, Describes;
    ghost var writes := plan.Contents();
    AsDescribed(before);
    GroupKnown(edits, before, group, writes);
    for index := 0 to plan.count
      invariant plan.Valid() && plan.Contents() == writes
      invariant forall x | x in group :: x.scalars == Partly(writes, index, x, before[x])
    {
      var write := plan.items[index];
      WriteKnown(edits, before, group, writes, index);
      GroupStep(edits, before, group, writes, index);
      write.owner.scalars := write.owner.scalars[write.field := write.value];
    }
    GroupDone(edits, before, group, writes);
  }

  lemma AsDescribed(before: Snapshot)
    requires Describes(before)
    ensures forall x | x in before :: x.scalars == before[x]
  {
  }

  lemma GroupStep(edits: seq<Edit>, before: Snapshot, group: set<Message>, writes: seq<Write>, k: nat)
    requires Certified(edits, before, group, [], writes) && k < |writes| && group <= before.Keys
    requires writes[k].owner != null && writes[k].owner in group
    requires writes[k].field < |Partly(writes, k, writes[k].owner, before[writes[k].owner])|
    ensures forall x | x in group :: Partly(writes, k + 1, x, before[x])
              == if x == writes[k].owner then Partly(writes, k, x, before[x])[writes[k].field := writes[k].value]
                 else Partly(writes, k, x, before[x])
  {
    hide Partly, Certified;
    LengthKept(writes, k, writes[k].owner, before[writes[k].owner]);
    forall x | x in group
      ensures Partly(writes, k + 1, x, before[x])
           == if x == writes[k].owner then Partly(writes, k, x, before[x])[writes[k].field := writes[k].value]
              else Partly(writes, k, x, before[x])
    {
      PartlyStep(writes, k, x, before[x]);
    }
  }

  lemma GroupDone(edits: seq<Edit>, before: Snapshot, group: set<Message>, writes: seq<Write>)
    requires Certified(edits, before, group, [], writes)
    ensures forall x | x in group :: && x in before && |before[x]| == |x.descriptor.fields|
                                     && (x.descriptor.IsStatement() ==> x.descriptor.HasPair())
                                     && Partly(writes, |writes|, x, before[x]) == RebasedScalars(edits, x, before[x])
  {
    hide Partly, Certified, RebasedScalars;
    forall x | x in group
      ensures && x in before && |before[x]| == |x.descriptor.fields|
              && (x.descriptor.IsStatement() ==> x.descriptor.HasPair())
              && Partly(writes, |writes|, x, before[x]) == RebasedScalars(edits, x, before[x])
    {
      PartlyAll(edits, before, group, writes, x);
    }
  }

  /** The messages rewritten are exactly those reachable from the root. */
  lemma GroupIsReachable(root: Message, group: set<Message>, x: Message)
    requires Closed(group) && Rooted({root}, group)
    ensures x in group <==> Below(root, x)
  {
    if x in group {
      assert BelowSome({root}, x);
    }
    if Below(root, x) {
      var steps: nat :| Reaches(root, x, steps);
      ClosedContains(root, group, x, steps);
    }
  }

  lemma {:induction false} ClosedContains(m: Message, group: set<Message>, x: Message, steps: nat)
    requires Closed(group) && m in group && Reaches(m, x, steps)
    ensures x in group
  {
    if steps > 0 {
      var c :| c in m.Kids() && Reaches(c, x, steps - 1);
      ClosedContains(c, group, x, steps - 1);
    }
  }
}

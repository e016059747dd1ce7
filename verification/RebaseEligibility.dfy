/** Which parse results are rebased without a new parse, read off the messages that
    active children lead to instead of off the walk. */
module RebaseEligibility {
  import opened Wrappers
  import opened SourceEdits
  import opened StatementSpans
  import opened ProtoTree
  import opened RebaseCursor
  import opened TreeRebase
  import opened RebaseTransaction

  // ----- what the tree holds

  /** The first field with the id. */
  ghost predicate FirstWith(fields: seq<Field>, id: nat, i: nat) {
    i < |fields| && fields[i].id == id && forall j | 0 <= j < i :: fields[j].id != id
  }

  /** Field i is there: the field its one-of group selects, a tracked optional field
      that is present, or any other; of a Node, the selected alternative only. */
  ghost predicate There(m: Message, i: nat) {
    && i < |m.descriptor.fields| == |m.present|
    && var f := m.descriptor.fields[i];
       && (m.descriptor.kind == NodeKind ==>
             0 in m.cases && m.cases[0] != 0 && FirstWith(m.descriptor.fields, m.cases[0], i))
       && (if f.oneof.Some?
           then f.oneof.value in m.cases && m.cases[f.oneof.value] != 0
                && FirstWith(m.descriptor.fields, m.cases[f.oneof.value], i)
           else f.cardinality == Optional && f.tracked ==> m.present[i])
  }

  lemma {:induction false} FindFieldMeans(fields: seq<Field>, id: nat, from: nat)
    requires from <= |fields|
    ensures var i := FindField(fields, id, from);
            && from <= i <= |fields|
            && (i < |fields| ==> fields[i].id == id)
            && (forall j | from <= j < i :: fields[j].id != id)
    decreases |fields| - from
  {
    if from < |fields| && fields[from].id != id {
      FindFieldMeans(fields, id, from + 1);
    }
  }

  lemma ThereMeans(m: Message, i: nat)
    requires |m.descriptor.fields| == |m.present|
    ensures m.IsActive(i) <==> There(m, i)
  {
    var fields := m.descriptor.fields;
    FindFieldMeans(fields, m.CaseOf(NODE_GROUP), 0);
    if i < |fields| && fields[i].oneof.Some? {
      FindFieldMeans(fields, m.CaseOf(fields[i].oneof.value), 0);
    }
  }

  /** c hangs in a message field of m that is there. */
  ghost predicate Carries(m: Message, c: Message) {
    exists i | 0 <= i < |m.members| ::
      && There(m, i) && m.descriptor.fields[i].fieldType.MessageField?
      && (m.members[i] == Single(c) || (m.members[i].Array? && c in m.members[i].items))
  }

  lemma KidsMean(m: Message, c: Message)
    requires |m.descriptor.fields| == |m.present| == |m.members|
    ensures c in m.Kids() <==> Carries(m, c)
  {
    hide Message.IsActive, There;
    forall i | 0 <= i < |m.members|
      ensures c in m.KidsAt(i)
         <==> There(m, i) && m.descriptor.fields[i].fieldType.MessageField?
              && (m.members[i] == Single(c) || (m.members[i].Array? && c in m.members[i].items))
    {
      ThereMeans(m, i);
    }
  }

  /** A way of `steps` children from m to x; `typed` tells whether it meets a TypeName,
      or met one before m. */
  ghost predicate Leads(m: Message, x: Message, steps: nat, before: bool, typed: bool) {
    var here := before || m.descriptor.kind == TypeNameKind;
    if steps == 0 then x == m && typed == here
    else exists c | c in m.Kids() :: Leads(c, x, steps - 1, here, typed)
  }

  // ----- what must hold of each message

  /** The point lies in the source and strictly inside no edit. */
  ghost predicate Free(s: Setting, point: int) {
    && 0 <= point <= s.oldLength
    && forall k | 0 <= k < |s.edits| :: point <= s.edits[k].sourceStart || s.edits[k].sourceEnd <= point
  }

  /** A name that a source coordinate of a newer schema might have. */
  ghost predicate Suspicious(name: string) {
    || (exists k :: 0 <= k <= |name| && "location" <= name[k..])
    || "source_" <= name
    || (exists k :: 0 <= k <= |name| && name[k..] in {"_offset", "_length", "_len", "_start", "_end"})
  }

  /** Field i holds no coordinate that cannot be moved. */
  ghost predicate FieldPasses(s: Setting, m: Message, scalars: seq<int>, i: nat)
    requires i < |scalars| == |m.descriptor.fields|
  {
    var d, f := m.descriptor, m.descriptor.fields[i];
    var number := f.fieldType == Int32Field && f.cardinality != Repeated;
    match f.name
    case None => false
    case Some(name) =>
      There(m, i) ==>
        if name == "stmt_location" || name == "stmt_len" then
          (d.kind == RawStmtKind || d.kind == QueryKind) && number
        else if name == "location" || name == "name_location" then
          || (d.kind == CreateTableSpaceKind && f.fieldType == StringField && name == "location")
          || (number && (scalars[i] < 0 || Free(s, scalars[i])))
        else
          f.fieldType.MessageField? || f.fieldType == StringField || !Suspicious(name)
  }

  /** The one-of group of field i is unset or selects one of its own fields. */
  ghost predicate Sound(m: Message, i: nat)
    requires i < |m.descriptor.fields|
  {
    var fields, group := m.descriptor.fields, m.descriptor.fields[i].oneof;
    group.Some? && group.value in m.cases && m.cases[group.value] != 0 ==>
      exists j: nat :: FirstWith(fields, m.cases[group.value], j) && fields[j].oneof == group
  }

  /** The children of field i are present where they must be, and of the declared type. */
  ghost predicate ChildrenPass(m: Message, i: nat)
    requires i < |m.descriptor.fields| == |m.members|
  {
    var f := m.descriptor.fields[i];
    There(m, i) && f.fieldType.MessageField? ==>
      match m.members[i]
      case Single(child) =>
        if child == null then f.oneof.None? && f.cardinality != Required
        else child.descriptor.kind == f.fieldType.target
      case Array(items) => forall c | c in items :: c != null && c.descriptor.kind == f.fieldType.target
      case MissingArray => false
      case NotMessage => true
  }

  ghost predicate PairPasses(s: Setting, location: int, length: int) {
    && length >= 0
    && (location >= 0 ==> Free(s, location))
    && (length > 0 ==> location >= 0 && Free(s, location + length))
  }

  /** What must hold of a message `depth` below the parse result. */
  ghost predicate Passes(s: Setting, scalars: seq<int>, m: Message, depth: nat, owned: bool, typed: bool)
    requires |scalars| == |m.descriptor.fields| == |m.members|
    requires m.descriptor.IsStatement() ==> m.descriptor.HasPair()
  {
    var d := m.descriptor;
    && depth <= 512 && m.genuine
    && (d.kind == NodeKind ==> 0 in m.cases && m.cases[0] != 0 && exists i :: FirstWith(d.fields, m.cases[0], i))
    && (d.kind == AConstKind ==> owned && s.accept(m, typed))
    && (d.kind == RawStmtKind || d.kind == QueryKind ==> PairPasses(s, scalars[d.stmtLocation], scalars[d.stmtLen]))
    && (forall i | 0 <= i < |d.fields| && (d.kind == NodeKind ==> FirstWith(d.fields, m.cases[0], i)) ::
          Sound(m, i) && FieldPasses(s, m, scalars, i) && ChildrenPass(m, i))
  }

  // ----- the checks of one message mean just that

  lemma {:induction false} ContainsMeans(name: string, part: string)
    ensures Contains(name, part) <==> exists k :: 0 <= k <= |name| && part <= name[k..]
    decreases |name|
  {
    assert name[0..] == name;
    if !(part <= name) && name != "" {
      ContainsMeans(name[1..], part);
      forall k | 0 <= k < |name| ensures name[1..][k..] == name[k + 1..] {
      }
      if k :| 0 <= k <= |name| && part <= name[k..] {
        assert name[1..][k - 1..] == name[k..];
      }
    }
  }

  lemma EndsMeans(name: string, suffix: string)
    ensures EndsWith(name, suffix) <==> exists k :: 0 <= k <= |name| && name[k..] == suffix
  {
    if EndsWith(name, suffix) {
      assert name[|name| - |suffix|..] == suffix;
    }
  }

  lemma SuspiciousMeans(f: Field, name: string)
    ensures UnhandledSourceField(f, name)
       <==> !f.fieldType.MessageField? && f.fieldType != StringField && Suspicious(name)
  {
    hide Contains, EndsWith;
    ContainsMeans(name, "location");
    EndsMeans(name, "_offset");
    EndsMeans(name, "_length");
    EndsMeans(name, "_len");
    EndsMeans(name, "_start");
    EndsMeans(name, "_end");
  }

  lemma FreeMeans(s: Setting, point: int)
    ensures PointAccepted(s.edits, s.oldLength, point) <==> Free(s, point)
  {
    if PointAccepted(s.edits, s.oldLength, point) {
      forall k | 0 <= k < |s.edits|
        ensures point <= s.edits[k].sourceStart || s.edits[k].sourceEnd <= point
      {
        assert !Covers(s.edits[k], point);
      }
    }
  }

  lemma SoundMeans(m: Message, i: nat)
    requires i < |m.descriptor.fields| == |m.present|
    ensures m.ActivityOf(i) != Corrupt <==> Sound(m, i)
  {
    var fields := m.descriptor.fields;
    if fields[i].oneof.Some? {
      var c := m.CaseOf(fields[i].oneof.value);
      FindFieldMeans(fields, c, 0);
      var k := FindField(fields, c, 0);
      assert k < |fields| ==> FirstWith(fields, c, k);
      forall j: nat | FirstWith(fields, c, j) ensures j == k {
      }
    }
  }

  lemma FieldMeans(s: Setting, m: Message, scalars: seq<int>, i: nat)
    requires i < |scalars| == |m.descriptor.fields| == |m.present|
    requires m.Visits(i)
    ensures FieldOk(s, m, scalars, i) <==> Sound(m, i) && FieldPasses(s, m, scalars, i)
  {
    hide Sound, There, Suspicious, UnhandledSourceField, Free, PointAccepted, Message.ActivityOf, Message.Visits;
    var f := m.descriptor.fields[i];
    SoundMeans(m, i);
    ActiveMeans(m, i);
    FreeMeans(s, scalars[i]);
    if f.name.Some? {
      SuspiciousMeans(f, f.name.value);
    }
  }

  lemma ActiveMeans(m: Message, i: nat)
    requires i < |m.descriptor.fields| == |m.present| && m.Visits(i)
    ensures m.ActivityOf(i) == Active <==> There(m, i)
  {
    ThereMeans(m, i);
  }

  lemma ChildrenMean(m: Message, i: nat)
    requires i < |m.descriptor.fields| == |m.present| == |m.members| && m.Visits(i) && Sound(m, i)
    ensures MembersOk(m, i) <==> ChildrenPass(m, i)
  {
    hide Sound, There, Message.ActivityOf, Message.Visits;
    SoundMeans(m, i);
    ActiveMeans(m, i);
    if m.members[i].Array? && m.descriptor.fields[i].fieldType.MessageField? {
      var items, target := m.members[i].items, m.descriptor.fields[i].fieldType.target;
      assert (forall k | 0 <= k < |items| :: OfKind(items[k], target)) <==> forall c | c in items :: OfKind(c, target);
    }
  }

  lemma VisitsMean(m: Message, i: nat)
    ensures m.Visits(i)
       <==> i < |m.descriptor.fields|
            && (m.descriptor.kind == NodeKind ==>
                  0 in m.cases && m.cases[0] != 0 && FirstWith(m.descriptor.fields, m.cases[0], i))
    ensures m.Window().Some?
       <==> (m.descriptor.kind == NodeKind ==>
               0 in m.cases && m.cases[0] != 0 && exists k :: FirstWith(m.descriptor.fields, m.cases[0], k))
  {
    var fields, c := m.descriptor.fields, m.CaseOf(NODE_GROUP);
    FindFieldMeans(fields, c, 0);
    var k := FindField(fields, c, 0);
    assert k < |fields| ==> FirstWith(fields, c, k);
    forall j: nat | FirstWith(fields, c, j) ensures j == k {
    }
  }

  lemma PairMeans(s: Setting, location: int, length: int)
    ensures PairAccepted(s.edits, s.oldLength, location, length) <==> PairPasses(s, location, length)
  {
    hide Free, PointAccepted;
    FreeMeans(s, location);
    FreeMeans(s, location + length);
  }

  /** The two passes over the window are passes over the visited fields. */
  lemma WindowMeans(s: Setting, before: Snapshot, m: Message)
    requires m in before && |before[m]| == |m.descriptor.fields| == |m.present| == |m.members|
    requires m.descriptor.IsStatement() ==> m.descriptor.HasPair()
    ensures OwnOk(s, before, m)
       <==> && PairOk(s, m, before[m]) && m.Window().Some?
            && forall i | 0 <= i < |m.present| && m.Visits(i) :: FieldOk(s, m, before[m], i)
    ensures AllMembersOk(m)
       <==> m.Window().Some? && forall i | 0 <= i < |m.present| && m.Visits(i) :: MembersOk(m, i)
  {
    hide FieldOk, MembersOk, PairOk, Message.Window;
    if m.Window().Some? {
      var (first, end) := m.Window().value;
      assert forall i | 0 <= i < |m.present| :: m.Visits(i) <==> first <= i < end;
    }
  }

  lemma MessageMeans(s: Setting, before: Snapshot, m: Message, depth: nat, owned: bool, typed: bool)
    requires m in before && |before[m]| == |m.descriptor.fields| == |m.present| == |m.members|
    requires m.descriptor.IsStatement() ==> m.descriptor.HasPair()
    ensures HeadOk(s, m, depth, owned, typed) && OwnOk(s, before, m) && AllMembersOk(m)
       <==> Passes(s, before[m], m, depth, owned, typed)
  {
    hide Sound, There, FieldPasses, ChildrenPass, FieldOk, MembersOk, PairPasses, PairAccepted, FirstWith, OwnOk,
         AllMembersOk, Message.Window, Message.Visits;
    var d, scalars := m.descriptor, before[m];
    WindowMeans(s, before, m);
    if d.IsStatement() {
      PairMeans(s, scalars[d.stmtLocation], scalars[d.stmtLen]);
    }
    VisitsMean(m, 0);
    forall i | 0 <= i < |d.fields|
      ensures m.Visits(i)
         <==> (d.kind == NodeKind ==> 0 in m.cases && m.cases[0] != 0 && FirstWith(d.fields, m.cases[0], i))
      ensures m.Visits(i) ==> (FieldOk(s, m, scalars, i) && MembersOk(m, i)
                               <==> Sound(m, i) && FieldPasses(s, m, scalars, i) && ChildrenPass(m, i))
    {
      VisitsMean(m, i);
      if m.Visits(i) {
        FieldMeans(s, m, scalars, i);
        if Sound(m, i) {
          ChildrenMean(m, i);
        }
      }
    }
  }

  // ----- the whole tree

  ghost predicate Known(before: Snapshot, m: Message) {
    && m in before && |before[m]| == |m.descriptor.fields| == |m.present| == |m.members|
    && (m.descriptor.IsStatement() ==> m.descriptor.HasPair())
  }

  ghost predicate AllPass(s: Setting, before: Snapshot, m: Message, depth: nat, owned: bool, typed: bool) {
    forall x, steps: nat, t | x in before && Leads(m, x, steps, typed, t) ::
      Known(before, x) && Passes(s, before[x], x, depth + steps, owned || steps > 0, t)
  }

  lemma SelfPasses(s: Setting, before: Snapshot, m: Message, depth: nat, owned: bool, typed: bool)
    requires m in before && AllPass(s, before, m, depth, owned, typed)
    ensures Known(before, m) && Passes(s, before[m], m, depth, owned, UnderTypeName(m, typed))
  {
    hide Passes, Known;
    assert Leads(m, m, 0, typed, UnderTypeName(m, typed));
  }

  lemma KidPasses(s: Setting, before: Snapshot, m: Message, c: Message, depth: nat, owned: bool, typed: bool)
    requires c in m.Kids() && AllPass(s, before, m, depth, owned, typed)
    ensures AllPass(s, before, c, depth + 1, true, UnderTypeName(m, typed))
  {
    hide Passes;
    forall x, steps: nat, t | x in before && Leads(c, x, steps, UnderTypeName(m, typed), t)
      ensures Known(before, x) && Passes(s, before[x], x, depth + 1 + steps, true || steps > 0, t)
    {
      assert Leads(m, x, steps + 1, typed, t);
    }
  }

  lemma SelfAndKidsPass(s: Setting, before: Snapshot, m: Message, depth: nat, owned: bool, typed: bool)
    requires Known(before, m) && Passes(s, before[m], m, depth, owned, UnderTypeName(m, typed))
    requires forall c | c in m.Kids() :: AllPass(s, before, c, depth + 1, true, UnderTypeName(m, typed))
    ensures AllPass(s, before, m, depth, owned, typed)
  {
    hide Passes;
    forall x, steps: nat, t | x in before && Leads(m, x, steps, typed, t)
      ensures Known(before, x) && Passes(s, before[x], x, depth + steps, owned || steps > 0, t)
    {
      if steps > 0 {
        var c :| c in m.Kids() && Leads(c, x, steps - 1, UnderTypeName(m, typed), t);
        assert AllPass(s, before, c, depth + 1, true, UnderTypeName(m, typed));
      }
    }
  }

  lemma AllKnown(before: Snapshot, m: Message)
    requires Describes(before) && m in before
    ensures Known(before, m) && m.Kids() <= before.Keys
  {
  }

  /** A tree is eligible exactly if every message that children lead to passes. */
  lemma {:induction false} TreeMeans(s: Setting, before: Snapshot, m: Message, depth: nat, owned: bool, typed: bool)
    requires Describes(before) && m in before
    ensures Eligible(s, before, m, depth, owned, typed) <==> AllPass(s, before, m, depth, owned, typed)
    decreases if depth <= MAX_DEPTH then MAX_DEPTH + 1 - depth else 0
  {
    hide Describes, AllPass, AllMembersOk, OwnOk, Known;
    var here := UnderTypeName(m, typed);
    AllKnown(before, m);
    KnownMeans(s, before, m, depth, owned, here);
    if AllPass(s, before, m, depth, owned, typed) {
      SelfPasses(s, before, m, depth, owned, typed);
    }
    if depth <= MAX_DEPTH {
      forall c | c in m.Kids()
        ensures Eligible(s, before, c, depth + 1, true, here) <==> AllPass(s, before, c, depth + 1, true, here)
        ensures AllPass(s, before, m, depth, owned, typed) ==> AllPass(s, before, c, depth + 1, true, here)
      {
        TreeMeans(s, before, c, depth + 1, true, here);
        if AllPass(s, before, m, depth, owned, typed) {
          KidPasses(s, before, m, c, depth, owned, typed);
        }
      }
      if Eligible(s, before, m, depth, owned, typed) {
        SelfAndKidsPass(s, before, m, depth, owned, typed);
      }
    }
  }

  lemma KnownMeans(s: Setting, before: Snapshot, m: Message, depth: nat, owned: bool, typed: bool)
    requires Known(before, m)
    ensures HeadOk(s, m, depth, owned, typed) && OwnOk(s, before, m) && AllMembersOk(m)
       <==> Passes(s, before[m], m, depth, owned, typed)
  {
    MessageMeans(s, before, m, depth, owned, typed);
  }

  // ----- the whole parse result

  /** Nonempty replacements of nonempty stretches, in order, that change the length as declared. */
  ghost predicate EditsFit(s: Setting) {
    && s.edits != [] && s.oldLength <= 0x7FFF_FFFF && s.newLength <= 0x7FFF_FFFF
    && (forall k | 0 <= k < |s.edits| ::
          && 0 <= s.edits[k].sourceStart < s.edits[k].sourceEnd <= s.oldLength
          && s.edits[k].replacement.Some? && s.edits[k].replacement.value != "")
    && (forall j, k | 0 <= j < k < |s.edits| :: s.edits[j].sourceEnd <= s.edits[k].sourceStart)
    && s.newLength == s.oldLength + TotalDelta(s.edits)
  }

  lemma EditsMean(s: Setting)
    ensures Valid(s.edits, s.oldLength, s.newLength) <==> EditsFit(s)
  {
    hide TotalDelta;
    if EditsFit(s) {
      forall k | 0 <= k < |s.edits| ensures Proper(s.edits[k], s.oldLength) {
      }
      forall j, k {:trigger Before(s.edits, j, k)} | 0 <= j < k < |s.edits| ensures Before(s.edits, j, k) {
      }
    }
    if Valid(s.edits, s.oldLength, s.newLength) {
      forall k | 0 <= k < |s.edits|
        ensures 0 <= s.edits[k].sourceStart < s.edits[k].sourceEnd <= s.oldLength
        ensures s.edits[k].replacement.Some? && s.edits[k].replacement.value != ""
      {
        assert Proper(s.edits[k], s.oldLength);
      }
      forall j, k | 0 <= j < k < |s.edits| ensures s.edits[j].sourceEnd <= s.edits[k].sourceStart {
        assert Before(s.edits, j, k);
      }
    }
  }

  /** The statements stand in order, only the last one may reach to the end of the
      source without a length, and each edit lies inside one of them. */
  ghost predicate SpansFit(spans: seq<Span>, sourceLength: int, edits: seq<Edit>) {
    && spans != []
    && (forall i | 0 <= i < |spans| ::
          && spans[i].Span? && 0 <= spans[i].location && 0 <= spans[i].length
          && spans[i].location + spans[i].length <= sourceLength
          && (i < |spans| - 1 ==> spans[i].length > 0))
    && (forall i, j | 0 <= i < j < |spans| :: spans[i].location + spans[i].length <= spans[j].location)
    && (forall k | 0 <= k < |edits| ::
          exists i | 0 <= i < |spans| ::
            && spans[i].location <= edits[k].sourceStart
            && (spans[i].length == 0 ==> edits[k].sourceEnd <= sourceLength)
            && (spans[i].length > 0 ==> edits[k].sourceEnd <= spans[i].location + spans[i].length))
  }

  lemma SpansMean(spans: seq<Span>, sourceLength: int, edits: seq<Edit>)
    ensures SpansWellFormed(spans, sourceLength) && Covered(spans, sourceLength, edits)
       <==> SpansFit(spans, sourceLength, edits)
  {
    if SpansWellFormed(spans, sourceLength) && Covered(spans, sourceLength, edits) {
      forall i, j | 0 <= i < j < |spans|
        ensures spans[i].Span? && spans[j].Span?
        ensures spans[i].location + spans[i].length <= spans[j].location
      {
        assert Follows(spans[i], spans[j], sourceLength) && SpanInBounds(spans[i], sourceLength);
      }
      forall k | 0 <= k < |edits|
        ensures exists i | 0 <= i < |spans| ::
            && spans[i].location <= edits[k].sourceStart
            && (spans[i].length == 0 ==> edits[k].sourceEnd <= sourceLength)
            && (spans[i].length > 0 ==> edits[k].sourceEnd <= spans[i].location + spans[i].length)
      {
        assert Housed(spans, sourceLength, edits[k]);
        var i :| 0 <= i < |spans| && Holds(spans[i], sourceLength, edits[k]);
        assert SpanInBounds(spans[i], sourceLength);
      }
    }
    if SpansFit(spans, sourceLength, edits) {
      forall k {:trigger Housed(spans, sourceLength, edits[k])} | 0 <= k < |edits|
        ensures Housed(spans, sourceLength, edits[k])
      {
        var i :| 0 <= i < |spans|
          && spans[i].location <= edits[k].sourceStart
          && (spans[i].length == 0 ==> edits[k].sourceEnd <= sourceLength)
          && (spans[i].length > 0 ==> edits[k].sourceEnd <= spans[i].location + spans[i].length);
        assert Holds(spans[i], sourceLength, edits[k]);
      }
    }
  }

  /** The slot holds a RawStmt with a statement and with that pair of coordinates. */
  ghost predicate SlotHolds(before: Snapshot, raw: Message?, span: Span) {
    && raw != null && Known(before, raw) && raw.descriptor.kind == RawStmtKind
    && raw.descriptor.body < |raw.members| && raw.members[raw.descriptor.body] != Single(null)
    && span == Span(before[raw][raw.descriptor.stmtLocation], before[raw][raw.descriptor.stmtLen])
  }

  lemma SlotMeans(before: Snapshot, raw: Message?, span: Span)
    requires Describes(before) && (raw != null ==> raw in before)
    ensures span.Span? && span == SpanOf(raw, before) <==> SlotHolds(before, raw, span)
  {
    if raw != null {
      AllKnown(before, raw);
    }
  }

  ghost predicate StatementsFit(s: Setting, before: Snapshot, ast: Message) {
    && ast.descriptor.body < |ast.members| && ast.members[ast.descriptor.body].Array?
    && var items := ast.members[ast.descriptor.body].items;
       exists spans: seq<Span> ::
         && |spans| == |items| && (forall i | 0 <= i < |items| :: SlotHolds(before, items[i], spans[i]))
         && SpansFit(spans, s.oldLength, s.edits)
  }

  lemma StatementsMean(s: Setting, before: Snapshot, ast: Message)
    requires Describes(before) && StatementsKnown(ast, before)
    ensures StatementsOk(s, before, ast) <==> StatementsFit(s, before, ast)
  {
    hide SlotHolds, SpanOf, Describes, SpansFit, SpansWellFormed, Covered;
    var items := StatementItems(ast);
    if StatementsOk(s, before, ast) {
      var spans: seq<Span> :| SpansOf(items, before, spans) && SpansWellFormed(spans, s.oldLength)
                              && Covered(spans, s.oldLength, s.edits);
      SpansMean(spans, s.oldLength, s.edits);
      SlotsMean(before, items, spans, s);
      SomeSpan(spans, s);
    }
    if StatementsFit(s, before, ast) {
      var spans: seq<Span> :| && |spans| == |items|
                              && (forall i | 0 <= i < |items| :: SlotHolds(before, items[i], spans[i]))
                              && SpansFit(spans, s.oldLength, s.edits);
      SpansMean(spans, s.oldLength, s.edits);
      SlotsMean(before, items, spans, s);
    }
  }

  lemma SomeSpan(spans: seq<Span>, s: Setting)
    requires SpansFit(spans, s.oldLength, s.edits)
    ensures spans != []
  {
  }

  lemma SlotsMean(before: Snapshot, items: seq<Message?>, spans: seq<Span>, s: Setting)
    requires Describes(before) && SpansFit(spans, s.oldLength, s.edits) && |spans| == |items|
    requires forall i | 0 <= i < |items| && items[i] != null :: items[i] in before
    ensures SpansOf(items, before, spans) <==> forall i | 0 <= i < |items| :: SlotHolds(before, items[i], spans[i])
  {
    hide SlotHolds, SpanOf, Describes;
    assert forall i | 0 <= i < |spans| :: spans[i].Span?;
    forall i | 0 <= i < |items|
      ensures spans[i] == SpanOf(items[i], before) <==> SlotHolds(before, items[i], spans[i])
    {
      SlotMeans(before, items[i], spans[i]);
    }
  }

  /** A parse result is rebased exactly if its edits and statements fit and every
      message that active children lead to passes. */
  lemma ResultMeans(s: Setting, before: Snapshot, ast: Message?)
    requires Describes(before) && (ast != null ==> ast in before && StatementsKnown(ast, before))
    ensures EligibleResult(s, before, ast)
       <==> && ast != null && ast.descriptor.kind == ParseResultKind
            && EditsFit(s) && StatementsFit(s, before, ast) && AllPass(s, before, ast, 0, false, false)
  {
    hide Describes, Valid, EditsFit, StatementsOk, StatementsFit, Eligible, AllPass, StatementsKnown;
    EditsMean(s);
    if ast != null {
      StatementsMean(s, before, ast);
      TreeMeans(s, before, ast, 0, false, false);
    }
  }
}

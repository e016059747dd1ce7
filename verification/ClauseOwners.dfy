/** Which messages have a clause, and how often it is numbered: once for each time the
    message stands in the statement. */
module ClauseOwners {
  import opened Wrappers
  import opened AstTree
  import opened ClauseWalk

  // ----- how often a message stands in a tree

  predicate OpensOperand(t: Tree, name: string) {
    t.kind == "SelectStmt" && Number(t, "op") !in {0, 1} && name in {"larg", "rarg"}
  }

  /** How often x is reached from t over active fields, counting only the places below an
      operand of a set operation, or only the others; `below` tells where t itself is. */
  function Visits(below: bool, t: Tree, x: Tree, operand: bool): nat
    decreases t, 3, 0
  {
    (if t == x && below == operand then 1 else 0) + VisitsFrom(below, t, 0, x, operand)
  }

  function VisitsFrom(below: bool, t: Tree, i: nat, x: Tree, operand: bool): nat
    requires i <= |t.fields|
    decreases t, 2, |t.fields| - i
  {
    if i == |t.fields| then 0 else VisitsField(below, t, i, x, operand) + VisitsFrom(below, t, i + 1, x, operand)
  }

  function VisitsField(below: bool, t: Tree, i: nat, x: Tree, operand: bool): nat
    requires i < |t.fields|
    decreases t, 1, 0
  {
    if !t.fields[i].active then 0
    else
      match t.fields[i].value
      case Child(one) =>
        if one.child.Some? then Visits(below || OpensOperand(t, t.fields[i].name), one.child.value, x, operand) else 0
      case Children(many) => VisitsItems(below, t, many, 0, x, operand)
      case _ => 0
  }

  function VisitsItems(below: bool, t: Tree, many: seq<MessageSlot>, j: nat, x: Tree, operand: bool): nat
    requires j <= |many| && forall k | 0 <= k < |many| :: many[k] < t
    decreases t, 0, |many| - j
  {
    if j == |many| then 0
    else
      (if many[j].child.Some? then Visits(below, many[j].child.value, x, operand) else 0)
      + VisitsItems(below, t, many, j + 1, x, operand)
  }

  // ----- which messages have a clause

  /** The field of the name is there and is no alternative that is not selected. */
  predicate Stands(x: Tree, name: string) {
    exists i | 0 <= i < |x.fields| :: x.fields[i].name == name && x.fields[i].active
  }

  predicate StandsAsChild(x: Tree, name: string) {
    exists i | 0 <= i < |x.fields| :: x.fields[i].name == name && x.fields[i].active && x.fields[i].value.Child?
  }

  predicate HasList(x: Tree, name: string) {
    GetMany(x, name) != []
  }

  predicate HasChild(x: Tree, name: string) {
    Get(x, name).Some?
  }

  predicate IsSetOp(x: Tree) {
    Number(x, "op") !in {0, 1}
  }

  /** Parts of a SELECT other than its list, FROM, WHERE and ORDER BY. */
  predicate HasOtherPart(x: Tree) {
    || HasChild(x, "having_clause") || HasChild(x, "with_clause") || HasList(x, "group_clause")
    || HasChild(x, "limit_offset") || HasChild(x, "limit_count")
  }

  predicate HasMainPart(x: Tree) {
    HasList(x, "target_list") || HasList(x, "from_clause") || HasChild(x, "where_clause")
  }

  /** A WHERE clause that is there is numbered, unless the SELECT has VALUES or is the
      tail of a DML statement; one that is not there can be added to all messages with
      the slot but a few, so to UPDATE and DELETE. */
  predicate HasWhere(tail: Option<nat>, x: Tree) {
    && StandsAsChild(x, "where_clause")
    && if x.kind == "SelectStmt" then
         && tail != Some(x.id) && !HasList(x, "values_lists")
         && (HasMainPart(x) || (!IsSetOp(x) && (HasList(x, "sort_clause") || HasOtherPart(x))))
       else
         || HasChild(x, "where_clause")
         || (x.kind == "CopyStmt" && Number(x, "is_from") != 0)
         || (x.kind == "OnConflictClause" && Number(x, "action") == 3)
         || (x.kind == "Constraint" && Number(x, "contype") == 9)
         || x.kind !in {"CopyStmt", "OnConflictClause", "Constraint"}
  }

  /** An ORDER BY that is there is numbered, unless the SELECT has VALUES; below an operand
      and for the tail of a DML statement nothing else is.  Elsewhere one can be added to
      every SELECT with some other part, and to a set operation with an operand. */
  predicate HasOrderBy(tail: Option<nat>, x: Tree, operand: bool) {
    && x.kind == "SelectStmt" && (IsSetOp(x) || Stands(x, "sort_clause"))
    && if tail == Some(x.id) && !IsSetOp(x) then HasList(x, "sort_clause")
       else
         && !HasList(x, "values_lists")
         && (HasList(x, "sort_clause")
             || (!operand && (HasMainPart(x)
                              || (if IsSetOp(x) then HasChild(x, "larg") || HasChild(x, "rarg") else HasOtherPart(x)))))
  }

  predicate Has(kind: ClauseKind, tail: Option<nat>, x: Tree, operand: bool) {
    match kind
    case SelectList => x.kind == "SelectStmt" && Stands(x, "target_list") && HasList(x, "target_list")
    case SetList => x.kind == "UpdateStmt" && Stands(x, "target_list") && HasList(x, "target_list")
    case Where => HasWhere(tail, x)
    case OrderBy => HasOrderBy(tail, x, operand)
  }

  // ----- how often a clause is numbered

  /** The clauses of a kind that belong to x. */
  function Numbered(clauses: seq<Clause>, kind: ClauseKind, x: Tree): nat
    decreases |clauses|
  {
    if clauses == [] then 0
    else (if clauses[0].kind == kind && clauses[0].owner == x then 1 else 0) + Numbered(clauses[1..], kind, x)
  }

  lemma {:induction false} NumberedJoin(a: seq<Clause>, b: seq<Clause>, kind: ClauseKind, x: Tree)
    ensures Numbered(a + b, kind, x) == Numbered(a, kind, x) + Numbered(b, kind, x)
    decreases |a|
  {
    if a == [] {
      assert a + b == b;
    } else {
      assert (a + b)[1..] == a[1..] + b;
      NumberedJoin(a[1..], b, kind, x);
    }
  }

  lemma NumberedShort(clauses: seq<Clause>, kind: ClauseKind, x: Tree)
    requires |clauses| <= 1
    ensures Numbered(clauses, kind, x)
         == if |clauses| == 1 && clauses[0].kind == kind && clauses[0].owner == x then 1 else 0
  {
    assert |clauses| == 1 ==> clauses[1..] == [];
  }

  /** The clauses of t's own that its fields from i on open. */
  function OpenedFrom(tail: Option<nat>, depth: nat, t: Tree, i: nat, kind: ClauseKind): nat
    requires i <= |t.fields|
    decreases |t.fields| - i
  {
    if i == |t.fields| then 0
    else
      (if Opens(tail, depth, t, i, kind) then 1 else 0) + OpenedFrom(tail, depth, t, i + 1, kind)
  }

  /** The places of x where it has the clause, of those outside and those below operands. */
  function Weighed(kind: ClauseKind, tail: Option<nat>, x: Tree, outside: nat, operands: nat): nat {
    (if Has(kind, tail, x, false) then outside else 0) + if Has(kind, tail, x, true) then operands else 0
  }

  /** The field that opens a clause of a kind. */
  function FieldOf(kind: ClauseKind): string {
    match kind
    case SelectList => "target_list"
    case SetList => "target_list"
    case Where => "where_clause"
    case OrderBy => "sort_clause"
  }

  /** Whether field i of t opens a clause of the kind. */
  predicate Opens(tail: Option<nat>, depth: nat, t: Tree, i: nat, kind: ClauseKind)
    requires i < |t.fields|
  {
    t.fields[i].active && Opened(tail, depth, t, i) != [] && Opened(tail, depth, t, i)[0].kind == kind
  }

  lemma OpensIfSelectList(tail: Option<nat>, depth: nat, t: Tree, i: nat)
    requires i < |t.fields|
    ensures Opens(tail, depth, t, i, SelectList)
       <==> && t.kind == "SelectStmt" && t.fields[i].active && t.fields[i].name == "target_list"
            && HasList(t, "target_list")
    ensures Opens(tail, depth, t, i, SetList)
       <==> && t.kind == "UpdateStmt" && t.fields[i].active && t.fields[i].name == "target_list"
            && HasList(t, "target_list")
  {
    hide AllowsEmptyWhere, ShowsOrderBy, IsSetOperation, GetMany;
  }

  lemma OpensIfWhere(tail: Option<nat>, depth: nat, t: Tree, i: nat)
    requires i < |t.fields|
    ensures Opens(tail, depth, t, i, Where)
       <==> && t.fields[i].active && t.fields[i].name == "where_clause" && t.fields[i].value.Child?
            && !IsTail(t, tail) && AllowsEmptyWhere(t)
    ensures Opens(tail, depth, t, i, OrderBy)
       <==> && t.kind == "SelectStmt" && t.fields[i].active && t.fields[i].name == "sort_clause" && !IsSetOperation(t)
            && if IsTail(t, tail) then HasList(t, "sort_clause") else ShowsOrderBy(t, depth)
  {
    hide AllowsEmptyWhere, ShowsOrderBy, IsSetOperation, IsTail, GetMany;
  }

  lemma WhereMeans(tail: Option<nat>, t: Tree)
    ensures HasWhere(tail, t) <==> StandsAsChild(t, "where_clause") && !IsTail(t, tail) && AllowsEmptyWhere(t)
  {
    hide Get, GetMany, Number, StandsAsChild;
  }

  lemma OrderByMeans(tail: Option<nat>, t: Tree, depth: nat)
    ensures HasOrderBy(tail, t, depth > 0)
       <==> || Deferred(depth, t) != []
            || (&& t.kind == "SelectStmt" && Stands(t, "sort_clause") && !IsSetOperation(t)
                && if IsTail(t, tail) then HasList(t, "sort_clause") else ShowsOrderBy(t, depth))
    ensures Deferred(depth, t) != [] ==> IsSetOperation(t)
  {
    hide Get, GetMany, Number, Stands;
  }

  /** A message has a clause exactly if one of its fields, or the end of a set operation,
      opens it, and then just one does. */
  lemma HasOwn(tail: Option<nat>, depth: nat, t: Tree, kind: ClauseKind)
    requires NamedOnce(t)
    ensures Has(kind, tail, t, depth > 0)
       <==> || (kind == OrderBy && Deferred(depth, t) != [])
            || exists i | 0 <= i < |t.fields| :: Opens(tail, depth, t, i, kind)
    ensures forall i, j | 0 <= i < |t.fields| && 0 <= j < |t.fields| ::
              Opens(tail, depth, t, i, kind) && Opens(tail, depth, t, j, kind) ==> i == j
    ensures Deferred(depth, t) != [] ==> forall i | 0 <= i < |t.fields| :: !Opens(tail, depth, t, i, OrderBy)
  {
    forall i | 0 <= i < |t.fields|
      ensures Opens(tail, depth, t, i, kind) ==> t.fields[i].name == FieldOf(kind)
    {
      OpensIfSelectList(tail, depth, t, i);
      OpensIfWhere(tail, depth, t, i);
    }
    forall i | 0 <= i < |t.fields|
      ensures Opens(tail, depth, t, i, OrderBy) ==> !IsSetOperation(t)
    {
      OpensIfWhere(tail, depth, t, i);
    }
    OrderByMeans(tail, t, depth);
    HasIfOpened(tail, depth, t, kind);
    hide Opens, Deferred, Has, IsSetOperation;
  }

  lemma HasIfOpened(tail: Option<nat>, depth: nat, t: Tree, kind: ClauseKind)
    ensures Has(kind, tail, t, depth > 0)
       <==> || (kind == OrderBy && Deferred(depth, t) != [])
            || exists i | 0 <= i < |t.fields| :: Opens(tail, depth, t, i, kind)
  {
    OrderByMeans(tail, t, depth);
    WhereMeans(tail, t);
    forall i | 0 <= i < |t.fields|
      ensures Opens(tail, depth, t, i, SelectList)
         <==> && t.kind == "SelectStmt" && t.fields[i].active && t.fields[i].name == "target_list"
              && HasList(t, "target_list")
      ensures Opens(tail, depth, t, i, SetList)
         <==> && t.kind == "UpdateStmt" && t.fields[i].active && t.fields[i].name == "target_list"
              && HasList(t, "target_list")
      ensures Opens(tail, depth, t, i, Where)
         <==> && t.fields[i].active && t.fields[i].name == "where_clause" && t.fields[i].value.Child?
              && !IsTail(t, tail) && AllowsEmptyWhere(t)
      ensures Opens(tail, depth, t, i, OrderBy)
         <==> && t.kind == "SelectStmt" && t.fields[i].active && t.fields[i].name == "sort_clause" && !IsSetOperation(t)
              && if IsTail(t, tail) then HasList(t, "sort_clause") else ShowsOrderBy(t, depth)
    {
      OpensIfSelectList(tail, depth, t, i);
      OpensIfWhere(tail, depth, t, i);
    }
    hide Opens, Deferred, HasOrderBy, HasWhere, IsSetOperation, ShowsOrderBy, AllowsEmptyWhere, IsTail, HasList;
  }

  lemma {:induction false} OneOpens(tail: Option<nat>, depth: nat, t: Tree, i: nat, kind: ClauseKind)
    requires i <= |t.fields|
    requires forall j, k | 0 <= j < |t.fields| && 0 <= k < |t.fields| &&
               Opens(tail, depth, t, j, kind) && Opens(tail, depth, t, k, kind) :: j == k
    ensures OpenedFrom(tail, depth, t, i, kind)
         == if exists j | i <= j < |t.fields| :: Opens(tail, depth, t, j, kind) then 1 else 0
    decreases |t.fields| - i
  {
    hide Opens;
    if i < |t.fields| {
      OneOpens(tail, depth, t, i + 1, kind);
    }
  }

  lemma OwnIsOne(tail: Option<nat>, depth: nat, t: Tree, kind: ClauseKind)
    requires NamedOnce(t)
    ensures OpenedFrom(tail, depth, t, 0, kind) + (if kind == OrderBy && Deferred(depth, t) != [] then 1 else 0)
         == if Has(kind, tail, t, depth > 0) then 1 else 0
  {
    hide Opens, Deferred, Has;
    HasOwn(tail, depth, t, kind);
    OneOpens(tail, depth, t, 0, kind);
  }

  /** Every clause is numbered, and no other: as often as a message stands in the tree at
      a place where it has the clause, so often it is numbered. */
  lemma {:induction false} NumberedWhereItStands(tail: Option<nat>, depth: nat, t: Tree, kind: ClauseKind, x: Tree)
    requires NamedOnce(x)
    ensures Numbered(Clauses(tail, depth, t), kind, x)
         == Weighed(kind, tail, x, Visits(depth > 0, t, x, false), Visits(depth > 0, t, x, true))
    decreases t, 3, 0
  {
    hide Deferred, Has, ClausesFrom, VisitsFrom, OpenedFrom, Numbered;
    NumberedJoin(ClausesFrom(tail, depth, t, 0), Deferred(depth, t), kind, x);
    DeferredNumbered(depth, t, kind, x);
    NumberedFrom(tail, depth, t, 0, kind, x);
    if t == x {
      OwnIsOne(tail, depth, t, kind);
    }
  }

  lemma DeferredNumbered(depth: nat, t: Tree, kind: ClauseKind, x: Tree)
    ensures Numbered(Deferred(depth, t), kind, x)
         == if t == x && kind == OrderBy && Deferred(depth, t) != [] then 1 else 0
  {
    NumberedShort(Deferred(depth, t), kind, x);
  }

  lemma OpenedNumbered(tail: Option<nat>, depth: nat, t: Tree, i: nat, kind: ClauseKind, x: Tree)
    requires i < |t.fields|
    ensures (if t.fields[i].active then Numbered(Opened(tail, depth, t, i), kind, x) else 0)
         == if t == x && Opens(tail, depth, t, i, kind) then 1 else 0
  {
    hide AllowsEmptyWhere, ShowsOrderBy, IsSetOperation, IsTail, Count;
    NumberedShort(Opened(tail, depth, t, i), kind, x);
  }

  lemma {:induction false} NumberedFrom(tail: Option<nat>, depth: nat, t: Tree, i: nat, kind: ClauseKind, x: Tree)
    requires NamedOnce(x) && i <= |t.fields|
    ensures Numbered(ClausesFrom(tail, depth, t, i), kind, x)
         == (if t == x then OpenedFrom(tail, depth, t, i, kind) else 0)
            + Weighed(kind, tail, x, VisitsFrom(depth > 0, t, i, x, false), VisitsFrom(depth > 0, t, i, x, true))
    decreases t, 2, |t.fields| - i
  {
    hide Has, Opens, VisitsField, FieldClauses, Opened, BelowField, Weighed, Numbered;
    NothingNumbered(kind, tail, x);
    if i < |t.fields| {
      NumberedFrom(tail, depth, t, i + 1, kind, x);
      NumberedJoin(FieldClauses(tail, depth, t, i), ClausesFrom(tail, depth, t, i + 1), kind, x);
      FieldNumbered(tail, depth, t, i, kind, x);
      NumberedField(tail, depth, t, i, kind, x);
      WeighedSum(kind, tail, x, VisitsField(depth > 0, t, i, x, false), VisitsField(depth > 0, t, i, x, true),
                 VisitsFrom(depth > 0, t, i + 1, x, false), VisitsFrom(depth > 0, t, i + 1, x, true));
    }
  }

  lemma NothingNumbered(kind: ClauseKind, tail: Option<nat>, x: Tree)
    ensures Numbered([], kind, x) == Weighed(kind, tail, x, 0, 0) == 0
  {
  }

  lemma WeighedSum(kind: ClauseKind, tail: Option<nat>, x: Tree, a: nat, b: nat, c: nat, d: nat)
    ensures Weighed(kind, tail, x, a + c, b + d) == Weighed(kind, tail, x, a, b) + Weighed(kind, tail, x, c, d)
  {
    hide Has;
  }

  lemma FieldNumbered(tail: Option<nat>, depth: nat, t: Tree, i: nat, kind: ClauseKind, x: Tree)
    requires i < |t.fields|
    ensures Numbered(FieldClauses(tail, depth, t, i), kind, x)
         == (if t == x && Opens(tail, depth, t, i, kind) then 1 else 0)
            + if t.fields[i].active then Numbered(BelowField(tail, depth, t, i), kind, x) else 0
  {
    hide Opens, Opened, BelowField;
    OpenedNumbered(tail, depth, t, i, kind, x);
    if t.fields[i].active {
      NumberedJoin(Opened(tail, depth, t, i), BelowField(tail, depth, t, i), kind, x);
    }
  }

  lemma {:induction false} NumberedField(tail: Option<nat>, depth: nat, t: Tree, i: nat, kind: ClauseKind, x: Tree)
    requires NamedOnce(x) && i < |t.fields|
    ensures (if t.fields[i].active then Numbered(BelowField(tail, depth, t, i), kind, x) else 0)
         == Weighed(kind, tail, x, VisitsField(depth > 0, t, i, x, false), VisitsField(depth > 0, t, i, x, true))
    decreases t, 1, 0
  {
    hide Has, Clauses, Visits, VisitsItems, ItemClauses, Weighed, Numbered;
    NothingNumbered(kind, tail, x);
    if t.fields[i].active {
      match t.fields[i].value {
        case Child(one) =>
          if one.child.Some? {
            NumberedWhereItStands(tail, OperandDepth(depth, t, i), one.child.value, kind, x);
            assert OperandDepth(depth, t, i) > 0 <==> depth > 0 || OpensOperand(t, t.fields[i].name);
          }
        case Children(many) => NumberedItems(tail, depth, t, many, 0, kind, x);
        case _ =>
      }
    }
  }

  lemma {:induction false} NumberedItems(tail: Option<nat>, depth: nat, t: Tree, many: seq<MessageSlot>, j: nat,
                                         kind: ClauseKind, x: Tree)
    requires NamedOnce(x) && j <= |many| && forall k | 0 <= k < |many| :: many[k] < t
    ensures Numbered(ItemClauses(tail, depth, t, many, j), kind, x)
         == Weighed(kind, tail, x, VisitsItems(depth > 0, t, many, j, x, false),
                    VisitsItems(depth > 0, t, many, j, x, true))
    decreases t, 0, |many| - j
  {
    hide Has, Clauses, Visits, Weighed, Numbered;
    NothingNumbered(kind, tail, x);
    if j < |many| {
      var below := depth > 0;
      NumberedItems(tail, depth, t, many, j + 1, kind, x);
      if many[j].child.Some? {
        var child := many[j].child.value;
        NumberedWhereItStands(tail, depth, child, kind, x);
        NumberedJoin(Clauses(tail, depth, child), ItemClauses(tail, depth, t, many, j + 1), kind, x);
        WeighedSum(kind, tail, x, Visits(below, child, x, false), Visits(below, child, x, true),
                   VisitsItems(below, t, many, j + 1, x, false), VisitsItems(below, t, many, j + 1, x, true));
      } else {
        assert ItemClauses(tail, depth, t, many, j) == ItemClauses(tail, depth, t, many, j + 1);
      }
    }
  }

  // ----- what a clause leads to

  /** A select list and an ORDER BY lead to their SELECT, a WHERE clause hangs in the slot
      of its message. */
  ghost predicate LeadsHome(c: Clause) {
    match c.kind
    case SelectList => c.select == Some(c.owner)
    case OrderBy => c.select == Some(c.owner)
    case SetList => c.select == None
    case Where =>
      && c.select == None && c.slot.Some?
      && exists i | 0 <= i < |c.owner.fields| :: c.owner.fields[i] == Field("where_clause", Child(c.slot.value), true)
  }

  ghost predicate AllLeadHome(clauses: seq<Clause>) {
    forall c | c in clauses :: LeadsHome(c)
  }

  lemma {:induction false} ClausesLeadHome(tail: Option<nat>, depth: nat, t: Tree)
    ensures AllLeadHome(Clauses(tail, depth, t))
    decreases t, 3, 0
  {
    hide LeadsHome, ClausesFrom, Deferred;
    DeferredLeadsHome(depth, t);
    FromLeadHome(tail, depth, t, 0);
  }

  lemma DeferredLeadsHome(depth: nat, t: Tree)
    ensures AllLeadHome(Deferred(depth, t))
  {
  }

  lemma OpenedLeadsHome(tail: Option<nat>, depth: nat, t: Tree, i: nat)
    requires i < |t.fields| && t.fields[i].active
    ensures AllLeadHome(Opened(tail, depth, t, i))
  {
    hide AllowsEmptyWhere, ShowsOrderBy, IsSetOperation, IsTail, Count;
    if t.fields[i].value.Child? && t.fields[i].name == "where_clause" {
      assert t.fields[i] == Field("where_clause", Child(t.fields[i].value.one), true);
    }
  }

  lemma {:induction false} FromLeadHome(tail: Option<nat>, depth: nat, t: Tree, i: nat)
    requires i <= |t.fields|
    ensures AllLeadHome(ClausesFrom(tail, depth, t, i))
    decreases t, 2, |t.fields| - i
  {
    hide LeadsHome, Opened, BelowField;
    if i < |t.fields| {
      if t.fields[i].active {
        OpenedLeadsHome(tail, depth, t, i);
        BelowLeadHome(tail, depth, t, i);
      }
      FromLeadHome(tail, depth, t, i + 1);
    }
  }

  lemma {:induction false} BelowLeadHome(tail: Option<nat>, depth: nat, t: Tree, i: nat)
    requires i < |t.fields|
    ensures AllLeadHome(BelowField(tail, depth, t, i))
    decreases t, 1, 0
  {
    hide LeadsHome, Clauses, ItemClauses;
    match t.fields[i].value {
      case Child(one) =>
        if one.child.Some? {
          ClausesLeadHome(tail, OperandDepth(depth, t, i), one.child.value);
        }
      case Children(many) => ItemsLeadHome(tail, depth, t, many, 0);
      case _ =>
    }
  }

  lemma {:induction false} ItemsLeadHome(tail: Option<nat>, depth: nat, t: Tree, many: seq<MessageSlot>, j: nat)
    requires j <= |many| && forall k | 0 <= k < |many| :: many[k] < t
    ensures AllLeadHome(ItemClauses(tail, depth, t, many, j))
    decreases t, 0, |many| - j
  {
    hide LeadsHome, Clauses;
    if j < |many| {
      ItemsLeadHome(tail, depth, t, many, j + 1);
      if many[j].child.Some? {
        ClausesLeadHome(tail, depth, many[j].child.value);
      }
    }
  }

  // ----- a clause and what stands in it

  /** The clauses below the entries of a field, one entry after the other. */
  function EachClause(tail: Option<nat>, depth: nat, many: seq<MessageSlot>): seq<Clause> {
    if many == [] then []
    else
      (if many[0].child.Some? then Clauses(tail, depth, many[0].child.value) else [])
      + EachClause(tail, depth, many[1..])
  }

  /** The clauses below a field that is no operand. */
  function Contents(tail: Option<nat>, depth: nat, v: Value): seq<Clause> {
    match v
    case Child(one) => if one.child.Some? then Clauses(tail, depth, one.child.value) else []
    case Children(many) => EachClause(tail, depth, many)
    case _ => []
  }

  lemma {:induction false} ItemsInOrder(tail: Option<nat>, depth: nat, t: Tree, many: seq<MessageSlot>, j: nat)
    requires j <= |many| && forall k | 0 <= k < |many| :: many[k] < t
    ensures ItemClauses(tail, depth, t, many, j) == EachClause(tail, depth, many[j..])
    decreases |many| - j
  {
    hide Clauses;
    if j < |many| {
      ItemsInOrder(tail, depth, t, many, j + 1);
      assert many[j..][1..] == many[j + 1..];
    }
  }

  /** The clauses of field i stand together. */
  lemma {:induction false} FieldStands(tail: Option<nat>, depth: nat, t: Tree, from: nat, i: nat)
    returns (before: seq<Clause>, behind: seq<Clause>)
    requires from <= i < |t.fields|
    ensures ClausesFrom(tail, depth, t, from) == before + FieldClauses(tail, depth, t, i) + behind
    decreases i - from
  {
    hide FieldClauses;
    if from == i {
      before, behind := [], ClausesFrom(tail, depth, t, i + 1);
    } else {
      before, behind := FieldStands(tail, depth, t, from + 1, i);
      before := FieldClauses(tail, depth, t, from) + before;
    }
  }

  lemma OpensHere(tail: Option<nat>, depth: nat, t: Tree, i: nat, kind: ClauseKind)
    requires NamedOnce(t) && i < |t.fields| && t.fields[i].name == FieldOf(kind)
    requires Has(kind, tail, t, depth > 0) && (kind == OrderBy ==> !IsSetOp(t))
    ensures Opens(tail, depth, t, i, kind)
  {
    HasOwn(tail, depth, t, kind);
    OrderByMeans(tail, t, depth);
    forall j | 0 <= j < |t.fields|
      ensures Opens(tail, depth, t, j, kind) ==> t.fields[j].name == FieldOf(kind)
    {
      OpensIfSelectList(tail, depth, t, j);
      OpensIfWhere(tail, depth, t, j);
    }
    hide Opens, Deferred, Has, GetMany, Number;
  }

  /** A clause is numbered right in front of those that stand in it: a select or SET list, a
      WHERE, and an ORDER BY unless a set operation has it. */
  lemma ClauseComesFirst(tail: Option<nat>, depth: nat, t: Tree, i: nat, kind: ClauseKind)
    returns (before: seq<Clause>, own: Clause, behind: seq<Clause>)
    requires NamedOnce(t) && i < |t.fields| && t.fields[i].name == FieldOf(kind)
    requires Has(kind, tail, t, depth > 0) && (kind == OrderBy ==> !IsSetOp(t))
    ensures own.kind == kind && own.owner == t
    ensures Clauses(tail, depth, t) == before + [own] + Contents(tail, depth, t.fields[i].value) + behind
  {
    OpensHere(tail, depth, t, i, kind);
    before, behind := FieldStands(tail, depth, t, 0, i);
    own := OpenedFirst(tail, depth, t, i, kind);
    BelowIsContents(tail, depth, t, i);
    Regroup(before, [own], Contents(tail, depth, t.fields[i].value), behind, Deferred(depth, t));
    WithDeferred(tail, depth, t);
    hide Clauses, ClausesFrom, FieldClauses, Contents, BelowField, Deferred, Has, Opens;
    behind := behind + Deferred(depth, t);
  }

  lemma WithDeferred(tail: Option<nat>, depth: nat, t: Tree)
    ensures Clauses(tail, depth, t) == ClausesFrom(tail, depth, t, 0) + Deferred(depth, t)
  {
  }

  lemma Regroup(a: seq<Clause>, own: seq<Clause>, contents: seq<Clause>, b: seq<Clause>, last: seq<Clause>)
    ensures a + (own + contents) + b + last == a + own + contents + (b + last)
  {
  }

  lemma OpenedFirst(tail: Option<nat>, depth: nat, t: Tree, i: nat, kind: ClauseKind) returns (own: Clause)
    requires i < |t.fields| && Opens(tail, depth, t, i, kind)
    ensures own.kind == kind && own.owner == t
    ensures FieldClauses(tail, depth, t, i) == [own] + BelowField(tail, depth, t, i)
  {
    hide BelowField, AllowsEmptyWhere, ShowsOrderBy, IsSetOperation;
    own := Opened(tail, depth, t, i)[0];
    assert Opened(tail, depth, t, i) == [own];
  }

  lemma BelowIsContents(tail: Option<nat>, depth: nat, t: Tree, i: nat)
    requires i < |t.fields| && t.fields[i].name !in {"larg", "rarg"}
    ensures BelowField(tail, depth, t, i) == Contents(tail, depth, t.fields[i].value)
  {
    hide Clauses;
    if t.fields[i].value.Children? {
      ItemsInOrder(tail, depth, t, t.fields[i].value.many, 0);
    }
  }
}

/** The numbering of editable clauses: select lists, WHERE, ORDER BY and SET lists. */
module ClauseWalk {
  import opened Wrappers
  import opened AstTree

  datatype ClauseKind = SelectList | Where | OrderBy | SetList

  /** `select` is the SELECT a select list or an ORDER BY belongs to.  `owner` is the
      message that has the clause and `slot` where a WHERE clause hangs; the walker
      keeps neither. */
  datatype Clause = Clause(kind: ClauseKind, select: Option<Tree>, owner: Tree, slot: Option<MessageSlot>)

  const SELECT := "SelectStmt"
  const UPDATE := "UpdateStmt"

  // ----- slot predicates

  function Count(t: Tree, name: string): nat {
    |GetMany(t, name)|
  }

  /** UNDEFINED is 0 and NONE is 1 in the set-operation enumeration. */
  predicate IsSetOperation(t: Tree) {
    t.kind == SELECT && Number(t, "op") != 0 && Number(t, "op") != 1
  }

  predicate HasAnyPart(t: Tree) {
    || Count(t, "target_list") > 0 || Count(t, "from_clause") > 0
    || Get(t, "where_clause").Some? || Get(t, "having_clause").Some? || Get(t, "with_clause").Some?
    || Count(t, "group_clause") > 0 || Count(t, "sort_clause") > 0
    || Get(t, "limit_offset").Some? || Get(t, "limit_count").Some?
  }

  predicate HasOrderBySlot(t: Tree) {
    && t.kind == SELECT && Count(t, "values_lists") == 0
    && if IsSetOperation(t) && Count(t, "target_list") == 0 && Count(t, "from_clause") == 0
          && Get(t, "where_clause").None? && Count(t, "sort_clause") == 0
       then Get(t, "larg").Some? || Get(t, "rarg").Some?
       else HasAnyPart(t)
  }

  /** An operand of a set operation shows an ORDER BY only if it has one. */
  predicate ShowsOrderBy(t: Tree, depth: nat) {
    HasOrderBySlot(t) && (depth == 0 || Count(t, "sort_clause") > 0)
  }

  predicate SelectAllowsWhere(t: Tree) {
    && Count(t, "values_lists") == 0
    && !(IsSetOperation(t) && Count(t, "target_list") == 0 && Count(t, "from_clause") == 0
         && Get(t, "where_clause").None?)
    && HasAnyPart(t)
  }

  const ON_CONFLICT_UPDATE := 3
  const CONSTRAINT_EXCLUSION := 9

  predicate AllowsEmptyWhere(t: Tree) {
    match t.kind
    case "SelectStmt" => SelectAllowsWhere(t)
    case "CopyStmt" => Number(t, "is_from") != 0 || Get(t, "where_clause").Some?
    case "OnConflictClause" => Number(t, "action") == ON_CONFLICT_UPDATE || Get(t, "where_clause").Some?
    case "Constraint" => Number(t, "contype") == CONSTRAINT_EXCLUSION || Get(t, "where_clause").Some?
    case _ => true
  }

  predicate IsTail(t: Tree, tail: Option<nat>) {
    t.kind == SELECT && tail == Some(t.id)
  }

  // ----- the reference enumeration

  /** The clause that a field of t opens, before anything below the field. */
  function Opened(tail: Option<nat>, depth: nat, t: Tree, i: nat): (r: seq<Clause>)
    requires i < |t.fields|
    ensures |r| <= 1
  {
    var f := t.fields[i];
    if t.kind == SELECT && f.name == "target_list" then
      if Count(t, "target_list") > 0 then [Clause(SelectList, Some(t), t, None)] else []
    else if t.kind == UPDATE && f.name == "target_list" then
      if Count(t, "target_list") > 0 then [Clause(SetList, None, t, None)] else []
    else if f.name == "where_clause" && f.value.Child? then
      if !IsTail(t, tail) && AllowsEmptyWhere(t) then [Clause(Where, None, t, Some(f.value.one))] else []
    else if t.kind == SELECT && f.name == "sort_clause" && !IsSetOperation(t) then
      if (if IsTail(t, tail) then Count(t, "sort_clause") > 0 else ShowsOrderBy(t, depth))
      then [Clause(OrderBy, Some(t), t, None)] else []
    else []
  }

  /** A set operation's own ORDER BY is numbered after everything below it. */
  function Deferred(depth: nat, t: Tree): seq<Clause> {
    if IsSetOperation(t) && ShowsOrderBy(t, depth) then [Clause(OrderBy, Some(t), t, None)] else []
  }

  function OperandDepth(depth: nat, t: Tree, i: nat): nat
    requires i < |t.fields|
  {
    if IsSetOperation(t) && t.fields[i].value.Child? && (t.fields[i].name == "larg" || t.fields[i].name == "rarg")
    then depth + 1 else depth
  }

  function Clauses(tail: Option<nat>, depth: nat, t: Tree): seq<Clause>
    decreases t, 3, 0
  {
    ClausesFrom(tail, depth, t, 0) + Deferred(depth, t)
  }

  function ClausesFrom(tail: Option<nat>, depth: nat, t: Tree, i: nat): seq<Clause>
    requires i <= |t.fields|
    decreases t, 2, |t.fields| - i
  {
    if i == |t.fields| then [] else FieldClauses(tail, depth, t, i) + ClausesFrom(tail, depth, t, i + 1)
  }

  function FieldClauses(tail: Option<nat>, depth: nat, t: Tree, i: nat): seq<Clause>
    requires i < |t.fields|
    decreases t, 1, 1
  {
    if !t.fields[i].active then [] else Opened(tail, depth, t, i) + BelowField(tail, depth, t, i)
  }

  function BelowField(tail: Option<nat>, depth: nat, t: Tree, i: nat): seq<Clause>
    requires i < |t.fields|
    decreases t, 1, 0
  {
    match t.fields[i].value
    case Child(one) => if one.child.Some? then Clauses(tail, OperandDepth(depth, t, i), one.child.value) else []
    case Children(many) => ItemClauses(tail, depth, t, many, 0)
    case _ => []
  }

  function ItemClauses(tail: Option<nat>, depth: nat, t: Tree, many: seq<MessageSlot>, j: nat): seq<Clause>
    requires j <= |many| && forall k | 0 <= k < |many| :: many[k] < t
    decreases t, 0, |many| - j
  {
    if j == |many| then []
    else
      (if many[j].child.Some? then Clauses(tail, depth, many[j].child.value) else [])
      + ItemClauses(tail, depth, t, many, j + 1)
  }

  // ----- the search state

  datatype Found = Found(kind: ClauseKind, internalIndex: nat, select: Option<Tree>)

  datatype Progress = Progress(seen: nat, targetIndex: nat, target: Option<Found>,
                               selectLists: nat, wheres: nat, orderBys: nat, setLists: nat)

  function SeenOf(p: Progress, kind: ClauseKind): nat {
    match kind
    case SelectList => p.selectLists
    case Where => p.wheres
    case OrderBy => p.orderBys
    case SetList => p.setLists
  }

  function Bumped(p: Progress, kind: ClauseKind): Progress {
    match kind
    case SelectList => p.(selectLists := p.selectLists + 1)
    case Where => p.(wheres := p.wheres + 1)
    case OrderBy => p.(orderBys := p.orderBys + 1)
    case SetList => p.(setLists := p.setLists + 1)
  }

  function Recorded(want: bool, p: Progress, kind: ClauseKind, select: Option<Tree>): Progress {
    Bumped(p, kind).(
      seen := p.seen + 1,
      target := if want && p.seen == p.targetIndex then Some(Found(kind, SeenOf(p, kind), select)) else p.target)
  }

  predicate Finished(want: bool, p: Progress) {
    want && p.target.Some?
  }

  function Run(want: bool, p: Progress, clauses: seq<Clause>): Progress
    decreases |clauses|
  {
    if clauses == [] || Finished(want, p) then p
    else Run(want, Recorded(want, p, clauses[0].kind, clauses[0].select), clauses[1..])
  }

  lemma {:induction false} RunJoin(want: bool, p: Progress, a: seq<Clause>, b: seq<Clause>)
    ensures Run(want, Run(want, p, a), b) == Run(want, p, a + b)
    decreases |a|
  {
    if a == [] {
      assert a + b == b;
    } else if !Finished(want, p) {
      RunJoin(want, Recorded(want, p, a[0].kind, a[0].select), a[1..], b);
      assert (a + b)[1..] == a[1..] + b;
    }
  }

  lemma RunNothing(want: bool, p: Progress)
    ensures Run(want, p, []) == p
  {
  }

  lemma RunFinished(want: bool, p: Progress, clauses: seq<Clause>)
    requires Finished(want, p)
    ensures Run(want, p, clauses) == p
  {
  }

  // ----- the walker

  class ClauseSearch {
    const want: bool
    const tail: Option<nat>
    var seen: nat
    var targetIndex: nat
    var target: Option<Found>
    var selectLists: nat
    var wheres: nat
    var orderBys: nat
    var setLists: nat
    var operandDepth: nat

    constructor (want: bool, targetIndex: nat, tail: Option<nat>)
      ensures this.want == want && this.tail == tail && operandDepth == 0
      ensures State() == Progress(0, targetIndex, None, 0, 0, 0, 0)
    {
      this.want, this.tail, this.targetIndex := want, tail, targetIndex;
      seen, target, operandDepth := 0, None, 0;
      selectLists, wheres, orderBys, setLists := 0, 0, 0, 0;
    }

    function State(): Progress
      reads this
    {
      Progress(seen, targetIndex, target, selectLists, wheres, orderBys, setLists)
    }

    predicate Over()
      reads this
    {
      Finished(want, State())
    }

    method Record(kind: ClauseKind, select: Option<Tree>)
      modifies this
      ensures State() == Recorded(want, old(State()), kind, select) && operandDepth == old(operandDepth)
    {
      var internalIndex: nat;
      match kind {
        case SelectList =>
          internalIndex := selectLists;
          selectLists := selectLists + 1;
        case Where =>
          internalIndex := wheres;
          wheres := wheres + 1;
        case OrderBy =>
          internalIndex := orderBys;
          orderBys := orderBys + 1;
        case SetList =>
          internalIndex := setLists;
          setLists := setLists + 1;
      }
      if want && seen == targetIndex {
        target := Some(Found(kind, internalIndex, select));
      }
      seen := seen + 1;
    }

    method RecordAll(clauses: seq<Clause>)
      requires !Over() && |clauses| <= 1
      modifies this
      ensures State() == Run(want, old(State()), clauses) && operandDepth == old(operandDepth)
    {
      if |clauses| == 1 {
        assert clauses[1..] == [];
        Record(clauses[0].kind, clauses[0].select);
      }
    }

    /** Numbers the clauses below t, and leaves the operand depth as it was. */
    method Walk(t: Tree)
      modifies this
      ensures State() == Run(want, old(State()), Clauses(tail, old(operandDepth), t))
      ensures operandDepth == old(operandDepth)
      decreases t, 2
    {
      if Over() {
        return;
      }
      RunJoin(want, State(), ClausesFrom(tail, operandDepth, t, 0), Deferred(operandDepth, t));
      for i := 0 to |t.fields|
        invariant !Over() && operandDepth == old(operandDepth)
        invariant Run(want, State(), ClausesFrom(tail, operandDepth, t, i))
               == Run(want, old(State()), ClausesFrom(tail, operandDepth, t, 0))
      {
        ghost var before := State();
        WalkField(t, i);
        RunJoin(want, before, FieldClauses(tail, operandDepth, t, i), ClausesFrom(tail, operandDepth, t, i + 1));
        if Over() {
          return;
        }
      }
      RecordAll(Deferred(operandDepth, t));
    }

    method WalkField(t: Tree, i: nat)
      requires !Over() && i < |t.fields|
      modifies this
      ensures State() == Run(want, old(State()), FieldClauses(tail, old(operandDepth), t, i))
      ensures operandDepth == old(operandDepth)
      decreases t, 1
    {
      hide Run, Finished, Opened, Clauses, ItemClauses, IsSetOperation;
      RunNothing(want, State());
      if !t.fields[i].active {
        return;
      }
      RunJoin(want, State(), Opened(tail, operandDepth, t, i), BelowField(tail, operandDepth, t, i));
      RecordAll(Opened(tail, operandDepth, t, i));
      RunNothing(want, State());
      if Over() {
        RunFinished(want, State(), BelowField(tail, operandDepth, t, i));
        return;
      }
      match t.fields[i].value {
        case Children(many) => WalkItems(t, many);
        case Child(one) =>
          if one.child.Some? {
            var operand := IsSetOperation(t) && (t.fields[i].name == "larg" || t.fields[i].name == "rarg");
            if operand {
              operandDepth := operandDepth + 1;
            }
            Walk(one.child.value);
            if operand {
              operandDepth := operandDepth - 1;
            }
          }
        case _ =>
      }
    }

    method WalkItems(t: Tree, many: seq<MessageSlot>)
      requires !Over() && forall k | 0 <= k < |many| :: many[k] < t
      modifies this
      ensures State() == Run(want, old(State()), ItemClauses(tail, old(operandDepth), t, many, 0))
      ensures operandDepth == old(operandDepth)
      decreases t, 0
    {
      for j := 0 to |many|
        invariant !Over() && operandDepth == old(operandDepth)
        invariant Run(want, State(), ItemClauses(tail, operandDepth, t, many, j))
               == Run(want, old(State()), ItemClauses(tail, operandDepth, t, many, 0))
      {
        if many[j].child.Some? {
          ghost var before := State();
          Walk(many[j].child.value);
          RunJoin(want, before, Clauses(tail, operandDepth, many[j].child.value),
                  ItemClauses(tail, operandDepth, t, many, j + 1));
          if Over() {
            return;
          }
        } else {
          assert ItemClauses(tail, operandDepth, t, many, j) == ItemClauses(tail, operandDepth, t, many, j + 1);
        }
      }
    }
  }

  // ----- what the ordinals mean

  /** How many of the first k clauses have a kind. */
  function Earlier(clauses: seq<Clause>, k: nat, kind: ClauseKind): nat
    requires k <= |clauses|
  {
    if k == 0 then 0 else Earlier(clauses, k - 1, kind) + if clauses[k - 1].kind == kind then 1 else 0
  }

  lemma {:induction false} EarlierAfterFirst(clauses: seq<Clause>, k: nat, kind: ClauseKind)
    requires 0 < k <= |clauses|
    ensures Earlier(clauses, k, kind)
         == (if clauses[0].kind == kind then 1 else 0) + Earlier(clauses[1..], k - 1, kind)
  {
    if k == 1 {
      assert Earlier(clauses, 0, kind) == 0;
    } else {
      EarlierAfterFirst(clauses, k - 1, kind);
      assert clauses[1..][k - 2] == clauses[k - 1];
    }
  }

  function ClauseAt(p: Progress, clauses: seq<Clause>, k: nat): Option<Found> {
    if k >= |clauses| then None
    else
      var c := clauses[k];
      Some(Found(c.kind, SeenOf(p, c.kind) + Earlier(clauses, k, c.kind), c.select))
  }

  lemma {:induction false} SearchFinds(p: Progress, clauses: seq<Clause>)
    requires p.target == None && p.seen <= p.targetIndex
    ensures Run(true, p, clauses).target == ClauseAt(p, clauses, p.targetIndex - p.seen)
    decreases |clauses|
  {
    if clauses != [] {
      var k, next := p.targetIndex - p.seen, Recorded(true, p, clauses[0].kind, clauses[0].select);
      if k > 0 {
        SearchFinds(next, clauses[1..]);
        if k < |clauses| {
          EarlierAfterFirst(clauses, k, clauses[k].kind);
        }
      }
    }
  }

  /** The public lookup: the k-th clause of the enumeration, under its kind and its
      index among the clauses of that kind.  A control-flow condition has exactly
      one clause of its own. */
  datatype Resolution = Condition | Resolved(found: Found)

  method Resolve(isCondition: bool, statement: Tree, tail: Option<nat>, index: nat)
    returns (status: Status, r: Option<Resolution>)
    ensures status == Ok || status == InvalidArgument
    ensures isCondition ==> (status == Ok <==> index == 0) && (status == Ok ==> r == Some(Condition))
    ensures var cs := Clauses(tail, 0, statement);
            !isCondition ==> && (status == Ok <==> index < |cs|)
                             && (status == Ok ==> r == Some(Resolved(Found(cs[index].kind,
                                   Earlier(cs, index, cs[index].kind), cs[index].select))))
  {
    if isCondition {
      if index != 0 {
        return InvalidArgument, None;
      }
      return Ok, Some(Condition);
    }
    var search := new ClauseSearch(true, index, tail);
    search.Walk(statement);
    SearchFinds(Progress(0, index, None, 0, 0, 0, 0), Clauses(tail, 0, statement));
    match search.target {
      case None => return InvalidArgument, None;
      case Some(found) => return Ok, Some(Resolved(found));
    }
  }
}

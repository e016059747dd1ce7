/** Reading a clause by its internal index: what is found under that index. */
module ClauseOrdinals {
  import opened Wrappers
  import opened AstTree
  import opened ClauseWalk
  import opened ClauseLaws
  import opened OrdinalSearch
  import opened WhereWalk
  import M = MessageWalk

  // ----- positions in the two lists

  lemma {:induction false} ListsAt(kind: ClauseKind, clauses: seq<Clause>, k: nat)
    requires k <= |clauses|
    ensures Earlier(clauses, k, kind) <= |Lists(kind, clauses)|
    ensures k == |clauses| ==> Earlier(clauses, k, kind) == |Lists(kind, clauses)|
    ensures k < |clauses| && clauses[k].kind == kind
            ==> && Earlier(clauses, k, kind) < |Lists(kind, clauses)|
                && Lists(kind, clauses)[Earlier(clauses, k, kind)] == clauses[k].owner
    decreases |clauses|
  {
    if k > 0 {
      EarlierAfterFirst(clauses, k, kind);
      ListsAt(kind, clauses[1..], k - 1);
    }
  }

  lemma {:induction false} TreesAt(hits: seq<M.Message>, i: nat)
    requires i < |hits|
    ensures Trees(hits)[i] == hits[i].info
    decreases |hits|
  {
    if i > 0 {
      TreesAt(hits[1..], i - 1);
    }
  }

  // ----- what is read for a clause

  /** The statement whose list is read for clause k: the one that has the internal
      index of the clause as its ordinal. */
  function Rendered(statement: Tree, clauses: seq<Clause>, k: nat): Option<Tree>
    requires k < |clauses|
  {
    var kind := clauses[k].kind;
    var i := Earlier(clauses, k, kind);
    if i < |Listers(kind, statement)| then Some(Listers(kind, statement)[i].info) else None
  }

  /** What a clause is read from. */
  datatype Source = ListOf(statement: Tree) | SortOf(select: Option<Tree>) | SlotOf(slot: Option<MessageSlot>)

  /** Reads a clause: only an ORDER BY goes by the SELECT that was found with it, the
      others go by their internal index, each through a walker of its own. */
  method ReadClause(statement: Tree, tail: Option<nat>, index: nat) returns (status: Status, source: Option<Source>)
    ensures var cs := Clauses(tail, 0, statement);
            if index >= |cs| then status == InvalidArgument && source == None
            else
              match cs[index].kind
              case OrderBy => status == Ok && source == Some(SortOf(cs[index].select))
              case Where => status == Ok && source == Some(SlotOf(cs[index].slot))
              case _ =>
                var list := Rendered(statement, cs, index);
                && status == (if list.Some? then Ok else InvalidArgument)
                && source == (if list.Some? then Some(ListOf(list.value)) else None)
  {
    var resolution;
    status, resolution := Resolve(false, statement, tail, index);
    if status != Ok {
      return InvalidArgument, None;
    }
    var found := resolution.value.found;
    match found.kind {
      case OrderBy => source := Some(SortOf(found.select));
      case Where =>
        var slot;
        WhereIndexIsSlotOrdinal(tail, statement, index);
        status, slot := SlotByIndex(tail, statement, found.internalIndex);
        source := Some(SlotOf(slot));
      case SelectList =>
        var select;
        status, select := M.SelectByIndex(statement, found.internalIndex);
        source := if select.Some? then Some(ListOf(select.value)) else None;
      case SetList =>
        var update;
        status, update := UpdateByIndex(statement, found.internalIndex);
        source := if update.Some? then Some(ListOf(update.value)) else None;
    }
  }

  /** The UPDATE with an ordinal among those with a SET list. */
  method UpdateByIndex(statement: Tree, index: nat) returns (status: Status, update: Option<Tree>)
    ensures var updates := Listers(SetList, statement);
            && status == (if index < |updates| then Ok else InvalidArgument)
            && update == if index < |updates| then Some(updates[index].info) else None
  {
    var search := new Search<Tree>(BY_INDEX, index);
    M.Walk(HasSetList, statement, search);
    IndexFinds(Start(index), Listers(SetList, statement));
    match search.target {
      case Some(hit) => return Ok, Some(hit.info);
      case None => return InvalidArgument, None;
    }
  }

  /** Every clause of the kind is read from the statement it belongs to. */
  ghost predicate RendersItself(kind: ClauseKind, statement: Tree, clauses: seq<Clause>) {
    forall k: nat | k < |clauses| && clauses[k].kind == kind ::
      Rendered(statement, clauses, k) == Some(clauses[k].owner)
  }

  /** Reading a select list, or a SET list, by its clause gives that clause's list, for
      all clauses of the kind, if and only if nothing scanned before such a list holds
      a statement with one. */
  lemma ClausesRenderThemselves(kind: ClauseKind, tail: Option<nat>, t: Tree)
    requires IsListKind(kind) && Shaped(t)
    ensures RendersItself(kind, t, Clauses(tail, 0, t)) <==> Undisturbed(kind, t)
  {
    var cs := Clauses(tail, 0, t);
    var a, b := Lists(kind, cs), Trees(Listers(kind, t));
    ListsFollowStatements(kind, tail, 0, t);
    ListsAt(kind, cs, |cs|);
    hide Clauses, Lists, Trees, Undisturbed, Shaped, M.Messages;
    if Undisturbed(kind, t) {
      forall k: nat | k < |cs| && cs[k].kind == kind
        ensures Rendered(t, cs, k) == Some(cs[k].owner)
      {
        ListsAt(kind, cs, k);
        TreesAt(Listers(kind, t), Earlier(cs, k, kind));
      }
    } else {
      var i :| 0 <= i < |a| && a[i] != b[i];
      var k := Nth(cs, kind, i);
      ListsAt(kind, cs, k);
      TreesAt(Listers(kind, t), i);
      assert Rendered(t, cs, k) != Some(cs[k].owner);
    }
  }

  // ----- a statement that is rendered wrongly

  const TARGETS: Value := Children([MessageSlot(20, Some(Tree(1, "ResTarget", [])))])
  const INNER: Tree := Tree(2, SELECT, [Field("target_list", TARGETS, true)])
  const SUBQUERIES: seq<MessageSlot> := [MessageSlot(30, Some(INNER))]
  const OUTER: Tree :=
    Tree(3, SELECT, [Field("distinct_clause", Children(SUBQUERIES), true), Field("target_list", TARGETS, true)])

  /** SELECT DISTINCT ON with a subquery among its expressions: the first clause is the
      list of the subquery, and it is the outer list that is rendered for it. */
  lemma DistinctOnRendersTheOuterList()
    ensures Shaped(OUTER) && !Undisturbed(SelectList, OUTER)
    ensures var cs := Clauses(None, 0, OUTER);
            && |cs| > 0 && cs[0] == Clause(SelectList, Some(INNER), INNER, None) && INNER != OUTER
            && Rendered(OUTER, cs, 0) == Some(OUTER)
  {
    OuterFields();
    OuterFirst();
    InnerFirst();
    hide Clauses, Shaped, Undisturbed, M.Messages;
    var hits := M.Selects(OUTER);
    assert Earlier(Clauses(None, 0, OUTER), 0, SelectList) == 0;
  }

  lemma OuterFields()
    ensures FieldIndex(OUTER, "target_list", 0) == 1 && FieldIndex(INNER, "target_list", 0) == 0
    ensures M.HasTargetList(OUTER) && M.HasTargetList(INNER)
    ensures Count(OUTER, "target_list") == 1 == Count(INNER, "target_list")
  {
    assert |"distinct_clause"| != |"target_list"|;
    assert FieldIndex(OUTER, "target_list", 1) == 1;
  }

  /** The inner SELECT is met before the outer target list. */
  lemma OuterFirst()
    ensures Shaped(OUTER) && !Undisturbed(SelectList, OUTER)
    ensures |M.Selects(OUTER)| > 0 && M.Selects(OUTER)[0].info == OUTER
  {
    OuterFields();
    assert Shaped(TARGETS.many[0].child.value);
    assert ShapedField(INNER, 0);
    assert Shaped(INNER);
    assert ShapedField(OUTER, 0) && ShapedField(OUTER, 1);
    var inner := M.Messages(Lister(SelectList), INNER);
    assert inner == M.Own(Lister(SelectList), INNER) + M.MessagesFrom(Lister(SelectList), INNER, 0);
    assert M.FieldMessages(Lister(SelectList), OUTER, 0)
        == inner + M.ItemMessages(Lister(SelectList), OUTER, SUBQUERIES, 1);
    assert !UndisturbedField(SelectList, OUTER, 0);
  }

  lemma InnerFirst()
    ensures |Clauses(None, 0, OUTER)| > 0 && Clauses(None, 0, OUTER)[0] == Clause(SelectList, Some(INNER), INNER, None)
  {
    OuterFields();
    assert |"distinct_clause"| != |"target_list"| && |"distinct_clause"| != |"where_clause"|
           && |"distinct_clause"| != |"sort_clause"|;
    var inner := Clauses(None, 0, INNER);
    assert FieldClauses(None, 0, INNER, 0) == Opened(None, 0, INNER, 0) + BelowField(None, 0, INNER, 0);
    assert ClausesFrom(None, 0, INNER, 0) == FieldClauses(None, 0, INNER, 0) + ClausesFrom(None, 0, INNER, 1);
    assert inner[0] == Clause(SelectList, Some(INNER), INNER, None);
    assert BelowField(None, 0, OUTER, 0) == inner + ItemClauses(None, 0, OUTER, SUBQUERIES, 1);
    assert FieldClauses(None, 0, OUTER, 0) == BelowField(None, 0, OUTER, 0);
    assert ClausesFrom(None, 0, OUTER, 0) == FieldClauses(None, 0, OUTER, 0) + ClausesFrom(None, 0, OUTER, 1);
  }
}

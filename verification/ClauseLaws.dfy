/** Laws of the clause numbering. */
module ClauseLaws {
  import opened Wrappers
  import opened AstTree
  import opened ClauseWalk
  import opened Sequences
  import M = MessageWalk

  // ----- a kind and an internal index name one clause

  /** The clause with an index among the clauses of its kind. */
  function Nth(clauses: seq<Clause>, kind: ClauseKind, n: nat): (k: nat)
    requires n < Earlier(clauses, |clauses|, kind)
    ensures k < |clauses| && clauses[k].kind == kind && Earlier(clauses, k, kind) == n
    decreases |clauses|
  {
    EarlierOfPrefix(clauses, |clauses| - 1, kind);
    if Earlier(clauses, |clauses| - 1, kind) == n then |clauses| - 1
    else
      var k := Nth(clauses[..|clauses| - 1], kind, n);
      EarlierOfPrefix(clauses, k, kind);
      k
  }

  lemma {:induction false} EarlierOfPrefix(clauses: seq<Clause>, k: nat, kind: ClauseKind)
    requires k < |clauses|
    ensures Earlier(clauses[..|clauses| - 1], k, kind) == Earlier(clauses, k, kind)
    decreases k
  {
    if k > 0 {
      EarlierOfPrefix(clauses, k - 1, kind);
    }
  }

  lemma {:induction false} EarlierGrows(clauses: seq<Clause>, j: nat, k: nat, kind: ClauseKind)
    requires j <= k <= |clauses|
    ensures Earlier(clauses, j, kind) <= Earlier(clauses, k, kind)
    ensures j < k && clauses[j].kind == kind ==> Earlier(clauses, j, kind) < Earlier(clauses, k, kind)
    decreases k - j
  {
    if j < k {
      EarlierGrows(clauses, j, k - 1, kind);
    }
  }

  /** Ordinals and (kind, internal index) pairs are in bijection: the pair of the
      k-th clause leads back to k, and it is a pair that exists. */
  lemma KindAndIndexNameOneClause(clauses: seq<Clause>, k: nat)
    requires k < |clauses|
    ensures Earlier(clauses, k, clauses[k].kind) < Earlier(clauses, |clauses|, clauses[k].kind)
    ensures Nth(clauses, clauses[k].kind, Earlier(clauses, k, clauses[k].kind)) == k
  {
    var kind := clauses[k].kind;
    EarlierGrows(clauses, k, |clauses|, kind);
    var j := Nth(clauses, kind, Earlier(clauses, k, kind));
    if j < k {
      EarlierGrows(clauses, j, k, kind);
    } else {
      EarlierGrows(clauses, k, j, kind);
    }
  }

  // ----- the owner of a clause lies in the tree

  ghost predicate Inside(clauses: seq<Clause>, t: Tree) {
    forall c | c in clauses :: c.owner < t
  }

  ghost predicate InsideOrAt(clauses: seq<Clause>, t: Tree) {
    forall c | c in clauses :: c.owner == t || c.owner < t
  }

  /** An ORDER BY is shown only where there is one. */
  ghost predicate Sorted(clauses: seq<Clause>) {
    forall c | c in clauses :: c.kind == OrderBy ==> c.select == Some(c.owner) && Count(c.owner, "sort_clause") > 0
  }

  lemma {:induction false} ClausesInside(tail: Option<nat>, depth: nat, t: Tree)
    ensures InsideOrAt(Clauses(tail, depth, t), t)
    ensures depth > 0 ==> Sorted(Clauses(tail, depth, t))
    decreases t, 3, 0
  {
    ClausesInsideFrom(tail, depth, t, 0);
  }

  lemma {:induction false} ClausesInsideFrom(tail: Option<nat>, depth: nat, t: Tree, i: nat)
    requires i <= |t.fields|
    ensures InsideOrAt(ClausesFrom(tail, depth, t, i), t)
    ensures depth > 0 ==> Sorted(ClausesFrom(tail, depth, t, i))
    decreases t, 2, |t.fields| - i
  {
    if i < |t.fields| {
      BelowInside(tail, depth, t, i);
      ClausesInsideFrom(tail, depth, t, i + 1);
    }
  }

  lemma {:induction false} BelowInside(tail: Option<nat>, depth: nat, t: Tree, i: nat)
    requires i < |t.fields|
    ensures Inside(BelowField(tail, depth, t, i), t)
    ensures depth > 0 ==> Sorted(BelowField(tail, depth, t, i))
    decreases t, 1, 0
  {
    match t.fields[i].value {
      case Child(one) =>
        if one.child.Some? {
          ClausesInside(tail, OperandDepth(depth, t, i), one.child.value);
        }
      case Children(many) => ItemsInside(tail, depth, t, many, 0);
      case _ =>
    }
  }

  lemma {:induction false} ItemsInside(tail: Option<nat>, depth: nat, t: Tree, many: seq<MessageSlot>, j: nat)
    requires j <= |many| && forall k | 0 <= k < |many| :: many[k] < t
    ensures Inside(ItemClauses(tail, depth, t, many, j), t)
    ensures depth > 0 ==> Sorted(ItemClauses(tail, depth, t, many, j))
    decreases t, 0, |many| - j
  {
    if j < |many| {
      ItemsInside(tail, depth, t, many, j + 1);
      if many[j].child.Some? {
        ClausesInside(tail, depth, many[j].child.value);
      }
    }
  }

  /** Operands of a set operation that have no sort clause contribute no ORDER BY,
      however deep below the operand they stand. */
  lemma OperandsShowOnlyRealOrderBy(tail: Option<nat>, depth: nat, t: Tree, i: nat)
    requires IsSetOperation(t) && i < |t.fields| && t.fields[i].value.Child?
    requires t.fields[i].name == "larg" || t.fields[i].name == "rarg"
    ensures Sorted(BelowField(tail, depth, t, i))
  {
    var one := t.fields[i].value.one;
    if one.child.Some? {
      ClausesInside(tail, depth + 1, one.child.value);
    }
  }

  /** The ORDER BY of a set operation comes after every clause of its operands and
      of everything else below it. */
  lemma SetOrderByComesLast(tail: Option<nat>, depth: nat, t: Tree, k: nat)
    requires IsSetOperation(t) && k < |Clauses(tail, depth, t)|
    requires Clauses(tail, depth, t)[k] == Clause(OrderBy, Some(t), t, None)
    ensures k == |Clauses(tail, depth, t)| - 1
  {
    OwnOrderByNotBelow(tail, depth, t, 0);
  }

  lemma {:induction false} OwnOrderByNotBelow(tail: Option<nat>, depth: nat, t: Tree, i: nat)
    requires IsSetOperation(t) && i <= |t.fields|
    ensures Clause(OrderBy, Some(t), t, None) !in ClausesFrom(tail, depth, t, i)
    decreases |t.fields| - i
  {
    if i < |t.fields| {
      BelowInside(tail, depth, t, i);
      OwnOrderByNotBelow(tail, depth, t, i + 1);
    }
  }

  // ----- select lists and SET lists against the preorder of their statements

  predicate IsListKind(kind: ClauseKind) {
    kind == SelectList || kind == SetList
  }

  predicate HasSetList(t: Tree) {
    t.kind == UPDATE && GetMany(t, "target_list") != []
  }

  /** The statements whose lists are numbered by themselves. */
  function Lister(kind: ClauseKind): Tree -> bool {
    if kind == SetList then HasSetList else M.HasTargetList
  }

  function Listers(kind: ClauseKind, t: Tree): seq<M.Message> {
    M.Messages(Lister(kind), t)
  }

  function Lists(kind: ClauseKind, clauses: seq<Clause>): seq<Tree> {
    if clauses == [] then []
    else (if clauses[0].kind == kind then [clauses[0].owner] else []) + Lists(kind, clauses[1..])
  }

  lemma {:induction false} ListsJoin(kind: ClauseKind, a: seq<Clause>, b: seq<Clause>)
    ensures Lists(kind, a + b) == Lists(kind, a) + Lists(kind, b)
    decreases |a|
  {
    if a == [] {
      assert a + b == b;
    } else {
      var head := if a[0].kind == kind then [a[0].owner] else [];
      RestOfJoin(a, b);
      ListsJoin(kind, a[1..], b);
      Associative(head, Lists(kind, a[1..]), Lists(kind, b));
    }
  }

  lemma {:induction false} ListsOf(kind: ClauseKind, clauses: seq<Clause>)
    ensures forall x | x in Lists(kind, clauses) :: exists c | c in clauses :: c.owner == x
  {
    if clauses != [] {
      ListsOf(kind, clauses[1..]);
      forall x | x in Lists(kind, clauses)
        ensures exists c | c in clauses :: c.owner == x
      {
        if x in Lists(kind, clauses[1..]) {
          var c :| c in clauses[1..] && c.owner == x;
          assert c in clauses;
        } else {
          assert clauses[0] in clauses;
        }
      }
    }
  }

  function Trees(hits: seq<M.Message>): (r: seq<Tree>)
    ensures |r| == |hits|
  {
    if hits == [] then [] else [hits[0].info] + Trees(hits[1..])
  }

  lemma {:induction false} TreesJoin(a: seq<M.Message>, b: seq<M.Message>)
    ensures Trees(a + b) == Trees(a) + Trees(b)
  {
    if a == [] {
      assert a + b == b;
    } else {
      RestOfJoin(a, b);
      TreesJoin(a[1..], b);
      Associative([a[0].info], Trees(a[1..]), Trees(b));
    }
  }

  /** A SELECT or an UPDATE has one target_list field, and it is not one of several alternatives. */
  predicate Shaped(t: Tree)
    decreases t, 1
  {
    && (t.kind == SELECT || t.kind == UPDATE ==>
          && (TargetField(t) < |t.fields| ==> t.fields[TargetField(t)].active)
          && forall i | TargetField(t) < i < |t.fields| :: t.fields[i].name != "target_list")
    && forall i | 0 <= i < |t.fields| :: ShapedField(t, i)
  }

  predicate ShapedField(t: Tree, i: nat)
    requires i < |t.fields|
    decreases t, 0
  {
    match t.fields[i].value
    case Child(one) => one.child.Some? ==> Shaped(one.child.value)
    case Children(many) => forall j | 0 <= j < |many| :: many[j].child.Some? ==> Shaped(many[j].child.value)
    case _ => true
  }

  /** No field that is scanned before a list holds a statement with one of its kind. */
  predicate Undisturbed(kind: ClauseKind, t: Tree)
    decreases t, 3, 0
  {
    UndisturbedFrom(kind, t, 0)
  }

  predicate UndisturbedFrom(kind: ClauseKind, t: Tree, i: nat)
    requires i <= |t.fields|
    decreases t, 2, |t.fields| - i
  {
    i == |t.fields| || (UndisturbedField(kind, t, i) && UndisturbedFrom(kind, t, i + 1))
  }

  predicate UndisturbedField(kind: ClauseKind, t: Tree, i: nat)
    requires i < |t.fields|
    decreases t, 1, 1
  {
    && (Lister(kind)(t) && i < TargetField(t) ==> M.FieldMessages(Lister(kind), t, i) == [])
    && (t.fields[i].active ==> UndisturbedBelow(kind, t, i))
  }

  predicate UndisturbedBelow(kind: ClauseKind, t: Tree, i: nat)
    requires i < |t.fields|
    decreases t, 1, 0
  {
    match t.fields[i].value
    case Child(one) => one.child.Some? ==> Undisturbed(kind, one.child.value)
    case Children(many) => UndisturbedItems(kind, t, many, 0)
    case _ => true
  }

  predicate UndisturbedItems(kind: ClauseKind, t: Tree, many: seq<MessageSlot>, j: nat)
    requires j <= |many| && forall k | 0 <= k < |many| :: many[k] < t
    decreases t, 0, |many| - j
  {
    || j == |many|
    || ((many[j].child.Some? ==> Undisturbed(kind, many[j].child.value)) && UndisturbedItems(kind, t, many, j + 1))
  }

  /** Two lists of the same length that are equal exactly under a condition. */
  ghost predicate Agree<A>(a: seq<A>, b: seq<A>, condition: bool) {
    |a| == |b| && (a == b <==> condition)
  }

  lemma AgreeJoin<A>(a: seq<A>, b: seq<A>, u: bool, c: seq<A>, d: seq<A>, v: bool)
    requires Agree(a, b, u) && Agree(c, d, v)
    ensures Agree(a + c, b + d, u && v)
  {
    assert (a + c)[..|a|] == a && (b + d)[..|b|] == b;
    assert (a + c)[|a|..] == c && (b + d)[|b|..] == d;
  }

  /** x stands first in one list and somewhere after c in the other. */
  lemma AgreeAcross<A>(x: A, c: seq<A>, d: seq<A>, u: bool, e: seq<A>, f: seq<A>, v: bool)
    requires Agree(c, d, u) && Agree(e, [x] + f, v) && x !in c
    ensures Agree(c + e, [x] + (d + f), d == [] && u && v)
  {
    if d == [] {
      assert c + e == e && d + f == f;
    } else {
      assert (c + e)[0] == c[0] && c[0] in c;
    }
  }

  /** The internal index of a select list is the target-list ordinal, and that of a
      SET list the ordinal among the UPDATEs, exactly when no list is disturbed: the
      two enumerations are the same sequence of statements if and only if nothing
      scanned before a list holds a statement with one of its kind. */
  lemma {:induction false} ListsFollowStatements(kind: ClauseKind, tail: Option<nat>, depth: nat, t: Tree)
    requires IsListKind(kind) && Shaped(t)
    ensures Agree(Lists(kind, Clauses(tail, depth, t)), Trees(Listers(kind, t)), Undisturbed(kind, t))
    decreases t, 3, 0
  {
    ListsJoin(kind, ClausesFrom(tail, depth, t, 0), Deferred(depth, t));
    TreesJoin(M.Own(Lister(kind), t), M.MessagesFrom(Lister(kind), t, 0));
    assert Lists(kind, Deferred(depth, t)) == [];
    ListsFrom(kind, tail, depth, t, 0);
  }

  /** The statement itself, as long as its list is still to come. */
  function Ahead(kind: ClauseKind, t: Tree, i: nat): seq<Tree> {
    if Lister(kind)(t) && i <= TargetField(t) then [t] else []
  }

  lemma {:induction false} ListsFrom(kind: ClauseKind, tail: Option<nat>, depth: nat, t: Tree, i: nat)
    requires IsListKind(kind) && Shaped(t) && i <= |t.fields|
    ensures Agree(Lists(kind, ClausesFrom(tail, depth, t, i)),
                  Ahead(kind, t, i) + Trees(M.MessagesFrom(Lister(kind), t, i)), UndisturbedFrom(kind, t, i))
    decreases t, 2, |t.fields| - i
  {
    hide Agree, Ahead, UndisturbedFrom, UndisturbedBelow, ClausesFrom, BelowField, M.MessagesFrom, M.FieldMessages,
         Shaped, Lists, Trees;
    if i == |t.fields| {
      ListsEnd(kind, tail, depth, t);
    } else {
      ListsFrom(kind, tail, depth, t, i + 1);
      ListsField(kind, tail, depth, t, i);
      ListsStep(kind, tail, depth, t, i);
    }
  }

  lemma ListsEnd(kind: ClauseKind, tail: Option<nat>, depth: nat, t: Tree)
    ensures var n := |t.fields|;
            Agree(Lists(kind, ClausesFrom(tail, depth, t, n)),
                  Ahead(kind, t, n) + Trees(M.MessagesFrom(Lister(kind), t, n)), UndisturbedFrom(kind, t, n))
  {
    assert Ahead(kind, t, |t.fields|) == [];
  }

  lemma OpenedLists(kind: ClauseKind, tail: Option<nat>, depth: nat, t: Tree, i: nat)
    requires IsListKind(kind) && Shaped(t) && i < |t.fields|
    ensures t.fields[i].active
      ==> Lists(kind, Opened(tail, depth, t, i)) == if Lister(kind)(t) && i == TargetField(t) then [t] else []
    ensures Lister(kind)(t) && i == TargetField(t) ==> t.fields[i].active
  {
    if i < TargetField(t) {
      BeforeTargetField(t, 0, i);
    }
    var own := Opened(tail, depth, t, i);
    if own != [] {
      assert Lists(kind, own[1..]) == [];
    }
  }

  lemma StepLists(kind: ClauseKind, tail: Option<nat>, depth: nat, t: Tree, i: nat)
    requires i < |t.fields|
    ensures Lists(kind, ClausesFrom(tail, depth, t, i))
         == (if t.fields[i].active
             then Lists(kind, Opened(tail, depth, t, i)) + Lists(kind, BelowField(tail, depth, t, i)) else [])
            + Lists(kind, ClausesFrom(tail, depth, t, i + 1))
  {
    var own, below := Opened(tail, depth, t, i), BelowField(tail, depth, t, i);
    assert ClausesFrom(tail, depth, t, i) == FieldClauses(tail, depth, t, i) + ClausesFrom(tail, depth, t, i + 1);
    assert FieldClauses(tail, depth, t, i) == if t.fields[i].active then own + below else [];
    ListsJoin(kind, own, below);
    ListsJoin(kind, FieldClauses(tail, depth, t, i), ClausesFrom(tail, depth, t, i + 1));
  }

  lemma {:induction false} BeforeTargetField(t: Tree, from: nat, i: nat)
    requires from <= |t.fields| && from <= i < FieldIndex(t, "target_list", from)
    ensures t.fields[i].name != "target_list"
    decreases |t.fields| - from
  {
    if from < i {
      BeforeTargetField(t, from + 1, i);
    }
  }

  lemma SelfNotBelow(kind: ClauseKind, tail: Option<nat>, depth: nat, t: Tree, i: nat)
    requires i < |t.fields|
    ensures t !in Lists(kind, BelowField(tail, depth, t, i))
  {
    BelowInside(tail, depth, t, i);
    ListsOf(kind, BelowField(tail, depth, t, i));
  }

  /** One field's step, with the statement x still ahead of it, at it, or behind it. */
  lemma AgreeStep<A>(x: A, ahead: bool, at: bool, below: seq<A>, trees: seq<A>, u: bool,
                     rest: seq<A>, later: seq<A>, v: bool)
    requires Agree(below, trees, u) && Agree(rest, (if ahead then [x] else []) + later, v)
    requires x !in below && !(ahead && at)
    ensures Agree((if at then [x] else []) + below + rest, (if ahead || at then [x] else []) + (trees + later),
                  (ahead ==> trees == []) && u && v)
  {
    if ahead {
      AgreeAcross(x, below, trees, u, rest, later, v);
      assert [] + below + rest == below + rest;
    } else {
      assert [] + later == later;
      AgreeJoin(below, trees, u, rest, later, v);
      if at {
        AgreeJoin([x], [x], true, below + rest, trees + later, u && v);
        assert [x] + below + rest == [x] + (below + rest);
      } else {
        assert [] + below + rest == below + rest && [] + (trees + later) == trees + later;
      }
    }
  }

  lemma ListsStep(kind: ClauseKind, tail: Option<nat>, depth: nat, t: Tree, i: nat)
    requires IsListKind(kind) && Shaped(t) && i < |t.fields|
    requires Agree(if t.fields[i].active then Lists(kind, BelowField(tail, depth, t, i)) else [],
                   Trees(M.FieldMessages(Lister(kind), t, i)), t.fields[i].active ==> UndisturbedBelow(kind, t, i))
    requires Agree(Lists(kind, ClausesFrom(tail, depth, t, i + 1)),
                   Ahead(kind, t, i + 1) + Trees(M.MessagesFrom(Lister(kind), t, i + 1)),
                   UndisturbedFrom(kind, t, i + 1))
    ensures Agree(Lists(kind, ClausesFrom(tail, depth, t, i)),
                  Ahead(kind, t, i) + Trees(M.MessagesFrom(Lister(kind), t, i)), UndisturbedFrom(kind, t, i))
  {
    var rest, later := Lists(kind, ClausesFrom(tail, depth, t, i + 1)), Trees(M.MessagesFrom(Lister(kind), t, i + 1));
    var below := if t.fields[i].active then Lists(kind, BelowField(tail, depth, t, i)) else [];
    var trees := Trees(M.FieldMessages(Lister(kind), t, i));
    var u := t.fields[i].active ==> UndisturbedBelow(kind, t, i);
    var at, ahead := Lister(kind)(t) && i == TargetField(t), Lister(kind)(t) && i < TargetField(t);
    StepLists(kind, tail, depth, t, i);
    OpenedLists(kind, tail, depth, t, i);
    SelfNotBelow(kind, tail, depth, t, i);
    TreesJoin(M.FieldMessages(Lister(kind), t, i), M.MessagesFrom(Lister(kind), t, i + 1));
    assert UndisturbedFrom(kind, t, i) <==> UndisturbedField(kind, t, i) && UndisturbedFrom(kind, t, i + 1);
    assert trees == [] <==> M.FieldMessages(Lister(kind), t, i) == [];
    assert M.MessagesFrom(Lister(kind), t, i)
        == M.FieldMessages(Lister(kind), t, i) + M.MessagesFrom(Lister(kind), t, i + 1);
    assert Lists(kind, ClausesFrom(tail, depth, t, i)) == (if at then [t] else []) + below + rest;
    hide Shaped, Clauses, ClausesFrom, M.Messages, M.MessagesFrom, M.FieldMessages, Lists, Trees, BelowField, Opened,
         UndisturbedFrom, UndisturbedBelow, Agree, FieldIndex, Lister;
    AgreeStep(t, ahead, at, below, trees, u, rest, later, UndisturbedFrom(kind, t, i + 1));
  }

  lemma {:induction false} ListsField(kind: ClauseKind, tail: Option<nat>, depth: nat, t: Tree, i: nat)
    requires IsListKind(kind) && Shaped(t) && i < |t.fields|
    ensures Agree(if t.fields[i].active then Lists(kind, BelowField(tail, depth, t, i)) else [],
                  Trees(M.FieldMessages(Lister(kind), t, i)), t.fields[i].active ==> UndisturbedBelow(kind, t, i))
    decreases t, 1, 0
  {
    assert ShapedField(t, i);
    if t.fields[i].active {
      match t.fields[i].value {
        case Child(one) =>
          if one.child.Some? {
            ListsFollowStatements(kind, tail, OperandDepth(depth, t, i), one.child.value);
          }
        case Children(many) => ListsItems(kind, tail, depth, t, many, 0);
        case _ =>
      }
    }
  }

  lemma EmptyLists(kind: ClauseKind)
    ensures Agree(Lists(kind, []), Trees([]), true)
  {
  }

  lemma {:induction false} ListsItems(kind: ClauseKind, tail: Option<nat>, depth: nat, t: Tree,
                                      many: seq<MessageSlot>, j: nat)
    requires j <= |many| && forall k | 0 <= k < |many| :: many[k] < t
    requires IsListKind(kind) && forall k | 0 <= k < |many| :: many[k].child.Some? ==> Shaped(many[k].child.value)
    ensures Agree(Lists(kind, ItemClauses(tail, depth, t, many, j)), Trees(M.ItemMessages(Lister(kind), t, many, j)),
                  UndisturbedItems(kind, t, many, j))
    decreases t, 0, |many| - j
  {
    hide Shaped, Undisturbed, Clauses, M.Messages, Lists, Trees;
    EmptyLists(kind);
    if j < |many| {
      ListsItems(kind, tail, depth, t, many, j + 1);
      if many[j].child.Some? {
        var child := many[j].child.value;
        ListsFollowStatements(kind, tail, depth, child);
        ListsJoin(kind, Clauses(tail, depth, child), ItemClauses(tail, depth, t, many, j + 1));
        TreesJoin(Listers(kind, child), M.ItemMessages(Lister(kind), t, many, j + 1));
        AgreeJoin(Lists(kind, Clauses(tail, depth, child)), Trees(Listers(kind, child)), Undisturbed(kind, child),
                  Lists(kind, ItemClauses(tail, depth, t, many, j + 1)),
                  Trees(M.ItemMessages(Lister(kind), t, many, j + 1)),
                  UndisturbedItems(kind, t, many, j + 1));
      } else {
        assert ItemClauses(tail, depth, t, many, j) == ItemClauses(tail, depth, t, many, j + 1);
        assert M.ItemMessages(Lister(kind), t, many, j) == M.ItemMessages(Lister(kind), t, many, j + 1);
      }
    }
  }
}

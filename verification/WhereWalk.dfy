/** The numbering of WHERE slots, and the WHERE clauses among all clauses. */
module WhereWalk {
  import opened Wrappers
  import opened AstTree
  import opened OrdinalSearch
  import opened Sequences
  import C = ClauseWalk

  /** The slot a WHERE clause hangs in, and the clause if there is one. */
  type Slot = Hit<Option<Tree>>

  // ----- the reference enumeration

  /** The WHERE slot that a field of t is, filled or open to be filled. */
  function Own(tail: Option<nat>, t: Tree, i: nat): (r: seq<Slot>)
    requires i < |t.fields|
    ensures |r| <= 1
  {
    var f := t.fields[i];
    if !C.IsTail(t, tail) && f.name == "where_clause" && f.value.Child? && C.AllowsEmptyWhere(t)
    then [Hit(f.value.one.addr, f.value.one.child)] else []
  }

  function Slots(tail: Option<nat>, t: Tree): seq<Slot>
    decreases t, 3, 0
  {
    SlotsFrom(tail, t, 0)
  }

  function SlotsFrom(tail: Option<nat>, t: Tree, i: nat): seq<Slot>
    requires i <= |t.fields|
    decreases t, 2, |t.fields| - i
  {
    if i == |t.fields| then [] else FieldSlots(tail, t, i) + SlotsFrom(tail, t, i + 1)
  }

  function FieldSlots(tail: Option<nat>, t: Tree, i: nat): seq<Slot>
    requires i < |t.fields|
    decreases t, 1, 1
  {
    if !t.fields[i].active then [] else Own(tail, t, i) + BelowSlots(tail, t, i)
  }

  function BelowSlots(tail: Option<nat>, t: Tree, i: nat): seq<Slot>
    requires i < |t.fields|
    decreases t, 1, 0
  {
    match t.fields[i].value
    case Child(one) => if one.child.Some? then Slots(tail, one.child.value) else []
    case Children(many) => ItemSlots(tail, t, many, 0)
    case _ => []
  }

  function ItemSlots(tail: Option<nat>, t: Tree, many: seq<MessageSlot>, j: nat): seq<Slot>
    requires j <= |many| && forall k | 0 <= k < |many| :: many[k] < t
    decreases t, 0, |many| - j
  {
    if j == |many| then []
    else
      (if many[j].child.Some? then Slots(tail, many[j].child.value) else []) + ItemSlots(tail, t, many, j + 1)
  }

  // ----- the walker

  type WhereSearch = Search<Option<Tree>>

  method RecordSlot(tail: Option<nat>, t: Tree, i: nat, search: WhereSearch)
    requires !search.Over() && i < |t.fields|
    modifies search
    ensures search.State() == Run(search.mode, old(search.State()), Own(tail, t, i))
  {
    var f := t.fields[i];
    if !C.IsTail(t, tail) && f.name == "where_clause" && f.value.Child? && C.AllowsEmptyWhere(t) {
      RunOne(search.mode, search.State(), Hit(f.value.one.addr, f.value.one.child));
      search.Record(Hit(f.value.one.addr, f.value.one.child));
    }
  }

  /** Numbers the WHERE slots of a tree. */
  method Walk(tail: Option<nat>, t: Tree, search: WhereSearch)
    requires search.mode.matchAddr.None?
    modifies search
    ensures search.State() == Run(search.mode, old(search.State()), Slots(tail, t))
    decreases t, 2
  {
    if search.mode.wantTarget && search.target.Some? {
      return;
    }
    for i := 0 to |t.fields|
      invariant !search.Over()
      invariant Run(search.mode, search.State(), SlotsFrom(tail, t, i))
             == Run(search.mode, old(search.State()), Slots(tail, t))
    {
      ghost var before := search.State();
      WalkField(tail, t, i, search);
      RunJoin(search.mode, before, FieldSlots(tail, t, i), SlotsFrom(tail, t, i + 1));
      if search.mode.wantTarget && search.target.Some? {
        return;
      }
    }
  }

  method WalkField(tail: Option<nat>, t: Tree, i: nat, search: WhereSearch)
    requires search.mode.matchAddr.None? && !search.Over() && i < |t.fields|
    modifies search
    ensures search.State() == Run(search.mode, old(search.State()), FieldSlots(tail, t, i))
    decreases t, 1
  {
    if !t.fields[i].active {
      return;
    }
    hide Own, Slots, ItemSlots;
    RunJoin(search.mode, search.State(), Own(tail, t, i), BelowSlots(tail, t, i));
    RecordSlot(tail, t, i, search);
    if search.mode.wantTarget && search.target.Some? {
      RunFinished(search.mode, search.State(), BelowSlots(tail, t, i));
      return;
    }
    match t.fields[i].value {
      case Child(one) =>
        if one.child.Some? {
          Walk(tail, one.child.value, search);
        }
      case Children(many) => WalkItems(tail, t, many, search);
      case _ =>
    }
  }

  method WalkItems(tail: Option<nat>, t: Tree, many: seq<MessageSlot>, search: WhereSearch)
    requires search.mode.matchAddr.None? && !search.Over() && forall k | 0 <= k < |many| :: many[k] < t
    modifies search
    ensures search.State() == Run(search.mode, old(search.State()), ItemSlots(tail, t, many, 0))
    decreases t, 0
  {
    for j := 0 to |many|
      invariant !search.Over()
      invariant Run(search.mode, search.State(), ItemSlots(tail, t, many, j))
             == Run(search.mode, old(search.State()), ItemSlots(tail, t, many, 0))
    {
      if many[j].child.Some? {
        ghost var before := search.State();
        Walk(tail, many[j].child.value, search);
        RunJoin(search.mode, before, Slots(tail, many[j].child.value), ItemSlots(tail, t, many, j + 1));
        if search.mode.wantTarget && search.target.Some? {
          return;
        }
      } else {
        assert ItemSlots(tail, t, many, j) == ItemSlots(tail, t, many, j + 1);
      }
    }
  }

  /** The WHERE slot with an ordinal. */
  method SlotByIndex(tail: Option<nat>, statement: Tree, index: nat) returns (status: Status, slot: Option<MessageSlot>)
    ensures status == if index < |Slots(tail, statement)| then Ok else InvalidArgument
    ensures slot == if status == Ok then Placed(Slots(tail, statement)[index]) else None
  {
    var search := new Search<Option<Tree>>(BY_INDEX, index);
    Walk(tail, statement, search);
    IndexFinds(Start(index), Slots(tail, statement));
    match search.target {
      case Some(hit) => return Ok, Placed(hit);
      case None => return InvalidArgument, None;
    }
  }

  // ----- the WHERE clauses are the WHERE slots

  function Placed(s: Slot): Option<MessageSlot> {
    Some(MessageSlot(s.addr, s.info))
  }

  function AllPlaced(slots: seq<Slot>): (r: seq<Option<MessageSlot>>)
    ensures |r| == |slots| && forall i | 0 <= i < |slots| :: r[i] == Placed(slots[i])
  {
    if slots == [] then [] else [Placed(slots[0])] + AllPlaced(slots[1..])
  }

  lemma PlacedJoin(a: seq<Slot>, b: seq<Slot>)
    ensures AllPlaced(a + b) == AllPlaced(a) + AllPlaced(b)
  {
    hide AllPlaced;
    var whole, parts := AllPlaced(a + b), AllPlaced(a) + AllPlaced(b);
    assert |whole| == |parts| && forall i | 0 <= i < |whole| :: whole[i] == parts[i];
  }

  /** Where the WHERE clauses of a list of clauses hang. */
  function Wheres(clauses: seq<C.Clause>): seq<Option<MessageSlot>> {
    if clauses == [] then []
    else (if clauses[0].kind == C.Where then [clauses[0].slot] else []) + Wheres(clauses[1..])
  }

  lemma {:induction false} WheresJoin(a: seq<C.Clause>, b: seq<C.Clause>)
    ensures Wheres(a + b) == Wheres(a) + Wheres(b)
    decreases |a|
  {
    if a == [] {
      assert a + b == b;
    } else {
      var head := if a[0].kind == C.Where then [a[0].slot] else [];
      RestOfJoin(a, b);
      WheresJoin(a[1..], b);
      Associative(head, Wheres(a[1..]), Wheres(b));
    }
  }

  lemma {:induction false} WheresAt(clauses: seq<C.Clause>, k: nat)
    requires k < |clauses| && clauses[k].kind == C.Where
    ensures var i := C.Earlier(clauses, k, C.Where); i < |Wheres(clauses)| && Wheres(clauses)[i] == clauses[k].slot
    decreases |clauses|
  {
    if k > 0 {
      C.EarlierAfterFirst(clauses, k, C.Where);
      WheresAt(clauses[1..], k - 1);
    }
  }

  /** The clause walker and the WHERE walker meet the same slots in the same order,
      whatever other clauses stand between them. */
  lemma {:induction false} WheresAreSlots(tail: Option<nat>, depth: nat, t: Tree)
    ensures Wheres(C.Clauses(tail, depth, t)) == AllPlaced(Slots(tail, t))
    decreases t, 3, 0
  {
    hide C.ClausesFrom, C.Deferred, SlotsFrom, AllPlaced;
    WheresFrom(tail, depth, t, 0);
    WheresJoin(C.ClausesFrom(tail, depth, t, 0), C.Deferred(depth, t));
    NoneDeferred(depth, t);
    Nothing(Wheres(C.ClausesFrom(tail, depth, t, 0)));
  }

  lemma NoneDeferred(depth: nat, t: Tree)
    ensures Wheres(C.Deferred(depth, t)) == []
  {
    assert C.Deferred(depth, t) != [] ==> C.Deferred(depth, t)[1..] == [];
  }

  lemma OwnIsOpened(tail: Option<nat>, depth: nat, t: Tree, i: nat)
    requires i < |t.fields|
    ensures Wheres(C.Opened(tail, depth, t, i)) == AllPlaced(Own(tail, t, i))
  {
    hide C.AllowsEmptyWhere, C.ShowsOrderBy, C.IsSetOperation;
    var some, own := C.Opened(tail, depth, t, i), Own(tail, t, i);
    assert some != [] ==> some[1..] == [];
    assert own != [] ==> own[1..] == [];
  }

  lemma {:induction false} WheresFrom(tail: Option<nat>, depth: nat, t: Tree, i: nat)
    requires i <= |t.fields|
    ensures Wheres(C.ClausesFrom(tail, depth, t, i)) == AllPlaced(SlotsFrom(tail, t, i))
    decreases t, 2, |t.fields| - i
  {
    hide C.FieldClauses, FieldSlots, Wheres, AllPlaced;
    NoneLeft();
    if i < |t.fields| {
      WheresField(tail, depth, t, i);
      WheresFrom(tail, depth, t, i + 1);
      WheresJoin(C.FieldClauses(tail, depth, t, i), C.ClausesFrom(tail, depth, t, i + 1));
      PlacedJoin(FieldSlots(tail, t, i), SlotsFrom(tail, t, i + 1));
    }
  }

  lemma NoneLeft()
    ensures Wheres([]) == AllPlaced([])
  {
  }

  lemma {:induction false} WheresField(tail: Option<nat>, depth: nat, t: Tree, i: nat)
    requires i < |t.fields|
    ensures Wheres(C.FieldClauses(tail, depth, t, i)) == AllPlaced(FieldSlots(tail, t, i))
    decreases t, 1, 1
  {
    hide C.Opened, C.BelowField, Own, BelowSlots, Wheres, AllPlaced;
    NoneLeft();
    if t.fields[i].active {
      OwnIsOpened(tail, depth, t, i);
      WheresBelow(tail, depth, t, i);
      WheresJoin(C.Opened(tail, depth, t, i), C.BelowField(tail, depth, t, i));
      PlacedJoin(Own(tail, t, i), BelowSlots(tail, t, i));
    }
  }

  lemma {:induction false} WheresBelow(tail: Option<nat>, depth: nat, t: Tree, i: nat)
    requires i < |t.fields|
    ensures Wheres(C.BelowField(tail, depth, t, i)) == AllPlaced(BelowSlots(tail, t, i))
    decreases t, 1, 0
  {
    hide C.Clauses, C.ItemClauses, Slots, ItemSlots, Wheres, AllPlaced;
    NoneLeft();
    match t.fields[i].value {
      case Child(one) =>
        if one.child.Some? {
          WheresAreSlots(tail, C.OperandDepth(depth, t, i), one.child.value);
        }
      case Children(many) => WheresItems(tail, depth, t, many, 0);
      case _ =>
    }
  }

  lemma {:induction false} WheresItems(tail: Option<nat>, depth: nat, t: Tree, many: seq<MessageSlot>, j: nat)
    requires j <= |many| && forall k | 0 <= k < |many| :: many[k] < t
    ensures Wheres(C.ItemClauses(tail, depth, t, many, j)) == AllPlaced(ItemSlots(tail, t, many, j))
    decreases t, 0, |many| - j
  {
    hide C.Clauses, Slots, Wheres, AllPlaced;
    NoneLeft();
    if j < |many| {
      WheresItems(tail, depth, t, many, j + 1);
      if many[j].child.Some? {
        var child := many[j].child.value;
        WheresAreSlots(tail, depth, child);
        WheresJoin(C.Clauses(tail, depth, child), C.ItemClauses(tail, depth, t, many, j + 1));
        PlacedJoin(Slots(tail, child), ItemSlots(tail, t, many, j + 1));
      } else {
        Nothing(C.ItemClauses(tail, depth, t, many, j + 1));
        Nothing(ItemSlots(tail, t, many, j + 1));
      }
    }
  }

  /** The internal index of a WHERE clause is the ordinal the WHERE walker gives its
      slot, and there are as many slots as clauses. */
  lemma WhereIndexIsSlotOrdinal(tail: Option<nat>, statement: Tree, k: nat)
    requires k < |C.Clauses(tail, 0, statement)| && C.Clauses(tail, 0, statement)[k].kind == C.Where
    ensures var cs := C.Clauses(tail, 0, statement);
            var i := C.Earlier(cs, k, C.Where);
            i < |Slots(tail, statement)| && cs[k].slot == Placed(Slots(tail, statement)[i])
  {
    WheresAreSlots(tail, 0, statement);
    WheresAt(C.Clauses(tail, 0, statement), k);
  }
}

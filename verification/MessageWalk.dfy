/** The numbering of messages of one kind, in preorder. */
module MessageWalk {
  import opened Wrappers
  import opened AstTree
  import opened OrdinalSearch

  type Message = Hit<Tree>

  // ----- the reference enumeration

  function Own(accept: Tree -> bool, t: Tree): seq<Message> {
    if accept(t) then [Hit(t.id, t)] else []
  }

  /** The accepted messages of a tree: itself first, then those of its fields. */
  function Messages(accept: Tree -> bool, t: Tree): seq<Message>
    decreases t, 3, 0
  {
    Own(accept, t) + MessagesFrom(accept, t, 0)
  }

  function MessagesFrom(accept: Tree -> bool, t: Tree, i: nat): seq<Message>
    requires i <= |t.fields|
    decreases t, 2, |t.fields| - i
  {
    if i == |t.fields| then [] else FieldMessages(accept, t, i) + MessagesFrom(accept, t, i + 1)
  }

  function FieldMessages(accept: Tree -> bool, t: Tree, i: nat): seq<Message>
    requires i < |t.fields|
    decreases t, 1, 0
  {
    if !t.fields[i].active then []
    else
      match t.fields[i].value
      case Child(one) => if one.child.Some? then Messages(accept, one.child.value) else []
      case Children(many) => ItemMessages(accept, t, many, 0)
      case _ => []
  }

  function ItemMessages(accept: Tree -> bool, t: Tree, many: seq<MessageSlot>, j: nat): seq<Message>
    requires j <= |many| && forall k | 0 <= k < |many| :: many[k] < t
    decreases t, 0, |many| - j
  {
    if j == |many| then []
    else
      (if many[j].child.Some? then Messages(accept, many[j].child.value) else [])
      + ItemMessages(accept, t, many, j + 1)
  }

  lemma FusedMessages(accept: Tree -> bool, t: Tree)
    requires IsNode(t) && |t.fields| == 1 && t.fields[0].active && t.fields[0].value.Child?
    ensures MessagesFrom(accept, t, 0) == if Wrapped(t).Some? then Messages(accept, Wrapped(t).value) else []
  {
    assert MessagesFrom(accept, t, 0) == FieldMessages(accept, t, 0) + MessagesFrom(accept, t, 1);
    assert MessagesFrom(accept, t, 1) == [];
  }

  // ----- the walker

  method RecordMessage(accept: Tree -> bool, t: Tree, search: Search<Tree>)
    requires !search.Over()
    modifies search
    ensures search.State() == Run(search.mode, old(search.State()), Own(accept, t))
  {
    if accept(t) {
      RunOne(search.mode, search.State(), Hit(t.id, t));
      search.Record(Hit(t.id, t));
    }
  }

  /** Numbers the accepted messages of a tree.  A Node is offered to `accept`
      itself, and then its child is visited in its place. */
  method Walk(accept: Tree -> bool, tree: Tree, search: Search<Tree>)
    requires search.mode.matchAddr.None?
    modifies search
    ensures search.State() == Run(search.mode, old(search.State()), Messages(accept, tree))
    decreases tree, 2
  {
    var t := tree;
    while true
      invariant t == tree || t < tree
      invariant Run(search.mode, search.State(), Messages(accept, t))
             == Run(search.mode, old(search.State()), Messages(accept, tree))
      decreases t
    {
      if search.mode.wantTarget && search.target.Some? {
        return;
      }
      RunJoin(search.mode, search.State(), Own(accept, t), MessagesFrom(accept, t, 0));
      RecordMessage(accept, t, search);
      if search.mode.wantTarget && search.target.Some? {
        return;
      }
      if IsNode(t) && |t.fields| == 1 && t.fields[0].active && t.fields[0].value.Child? {
        FusedMessages(accept, t);
        if t.fields[0].value.one.child.None? {
          return;
        }
        t := t.fields[0].value.one.child.value;
      } else {
        break;
      }
    }
    WalkFields(accept, t, search);
  }

  method WalkFields(accept: Tree -> bool, t: Tree, search: Search<Tree>)
    requires search.mode.matchAddr.None? && !search.Over()
    modifies search
    ensures search.State() == Run(search.mode, old(search.State()), MessagesFrom(accept, t, 0))
    decreases t, 1
  {
    for i := 0 to |t.fields|
      invariant !search.Over()
      invariant Run(search.mode, search.State(), MessagesFrom(accept, t, i))
             == Run(search.mode, old(search.State()), MessagesFrom(accept, t, 0))
    {
      ghost var before := search.State();
      if t.fields[i].active {
        match t.fields[i].value {
          case Child(one) =>
            if one.child.Some? {
              Walk(accept, one.child.value, search);
            }
          case Children(many) => WalkItems(accept, t, many, search);
          case _ =>
        }
      }
      RunJoin(search.mode, before, FieldMessages(accept, t, i), MessagesFrom(accept, t, i + 1));
      if search.mode.wantTarget && search.target.Some? {
        return;
      }
    }
  }

  method WalkItems(accept: Tree -> bool, t: Tree, many: seq<MessageSlot>, search: Search<Tree>)
    requires search.mode.matchAddr.None? && !search.Over() && forall k | 0 <= k < |many| :: many[k] < t
    modifies search
    ensures search.State() == Run(search.mode, old(search.State()), ItemMessages(accept, t, many, 0))
    decreases t, 0
  {
    for j := 0 to |many|
      invariant !search.Over()
      invariant Run(search.mode, search.State(), ItemMessages(accept, t, many, j))
             == Run(search.mode, old(search.State()), ItemMessages(accept, t, many, 0))
    {
      if many[j].child.Some? {
        ghost var before := search.State();
        Walk(accept, many[j].child.value, search);
        RunJoin(search.mode, before, Messages(accept, many[j].child.value), ItemMessages(accept, t, many, j + 1));
        if search.mode.wantTarget && search.target.Some? {
          return;
        }
      } else {
        assert ItemMessages(accept, t, many, j) == ItemMessages(accept, t, many, j + 1);
      }
    }
  }

  // ----- SELECT statements by target-list ordinal

  predicate HasTargetList(t: Tree) {
    t.kind == "SelectStmt" && GetMany(t, "target_list") != []
  }

  /** The SELECTs of a statement that have a target list, in preorder. */
  function Selects(t: Tree): seq<Message> {
    Messages(HasTargetList, t)
  }

  method Probe(statement: Tree, index: nat) returns (hit: Option<Message>)
    ensures hit == if index < |Selects(statement)| then Some(Selects(statement)[index]) else None
  {
    var search := new Search<Tree>(BY_INDEX, index);
    Walk(HasTargetList, statement, search);
    IndexFinds(Start(index), Selects(statement));
    hit := search.target;
  }

  /** The SELECT with a target-list ordinal. */
  method SelectByIndex(statement: Tree, index: nat) returns (status: Status, select: Option<Tree>)
    ensures status == Ok <==> index < |Selects(statement)|
    ensures status == Ok || status == InvalidArgument
    ensures select == (if index < |Selects(statement)| then Some(Selects(statement)[index].info) else None)
  {
    var found := Probe(statement, index);
    match found {
      case Some(hit) => return Ok, Some(hit.info);
      case None => return InvalidArgument, None;
    }
  }

  /** The number of SELECTs with a target list. */
  method CountSelects(statement: Tree) returns (count: nat)
    ensures count == |Selects(statement)|
  {
    var search := new Search<Tree>(COUNTING, 0);
    Walk(HasTargetList, statement, search);
    CountIsLength(Start(0), Selects(statement));
    count := search.seen;
  }

  /** Counts the SELECTs, then asks for one after the other until the wanted one
      comes back.  A SELECT without a target list is refused at once, and one that
      is not in the statement is an internal error. */
  method FindSelect(statement: Tree, select: Option<Tree>) returns (status: Status, index: nat)
    ensures status == InvalidArgument <==> select.None? || !HasTargetList(select.value)
    ensures status == Ok ==> && index < |Selects(statement)| && Selects(statement)[index].addr == select.value.id
                             && forall i | 0 <= i < index :: Selects(statement)[i].addr != select.value.id
    ensures status != Ok && status != InvalidArgument
        ==> status == InternalError && forall m | m in Selects(statement) :: m.addr != select.value.id
  {
    if select.None? || !HasTargetList(select.value) {
      return InvalidArgument, 0;
    }
    var count := CountSelects(statement);
    hide Messages, HasTargetList;
    for i := 0 to count
      invariant forall k | 0 <= k < i :: Selects(statement)[k].addr != select.value.id
    {
      var hit := Probe(statement, i);
      if hit.value.addr == select.value.id {
        return Ok, i;
      }
    }
    return InternalError, 0;
  }
}

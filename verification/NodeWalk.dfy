/** The numbering of Node slots: every wrapper counts except grouping parentheses
    and the wrappers that encode a MySQL DML tail. */
module NodeWalk {
  import opened Wrappers
  import opened AstTree
  import opened OrdinalSearch

  /** What the slot search reports besides the node: its slot and the message holding it. */
  datatype NodeInfo = NodeInfo(slot: nat, parent: nat)

  type NodeHit = Hit<NodeInfo>

  /** Nodes are looked up by themselves or by the constant they wrap. */
  datatype Key = NodeKey | ConstantKey

  predicate Wraps(t: Tree, kind: string) {
    IsNode(t) && Wrapped(t).Some? && Wrapped(t).value.kind == kind
  }

  /** Zero stands for a node that wraps no constant. */
  function KeyOf(key: Key, node: Tree): nat {
    match key
    case NodeKey => node.id
    case ConstantKey => if Wraps(node, "AConst") then Wrapped(node).value.id + 1 else 0
  }

  predicate WrapsSelect(t: Tree, select: nat) {
    Wraps(t, "SelectStmt") && Wrapped(t).value.id == select
  }

  /** The synthetic target, sublink or select Node around the tail of a MySQL DML statement. */
  predicate IsTailWrapper(t: Tree, tail: Option<nat>) {
    tail.Some? &&
    if Wraps(t, "SelectStmt") then WrapsSelect(t, tail.value)
    else
      var value := if Wraps(t, "ResTarget") then Get(Wrapped(t).value, "val") else Some(t);
      && value.Some? && Wraps(value.value, "SubLink")
      && var subselect := Get(Wrapped(value.value).value, "subselect");
         subselect.Some? && WrapsSelect(subselect.value, tail.value)
  }

  predicate Counts(t: Tree, tail: Option<nat>) {
    IsNode(t) && !IsGroupingWrapper(t) && !IsTailWrapper(t, tail)
  }

  // ----- the reference enumeration

  /** All counted nodes below a message, in schema order. */
  function Nodes(key: Key, tail: Option<nat>, t: Tree): seq<NodeHit>
    decreases t, 3, 0
  {
    NodesFrom(key, tail, t, 0)
  }

  function NodesFrom(key: Key, tail: Option<nat>, t: Tree, i: nat): seq<NodeHit>
    requires i <= |t.fields|
    decreases t, 2, |t.fields| - i
  {
    if i == |t.fields| then [] else FieldNodes(key, tail, t, i) + NodesFrom(key, tail, t, i + 1)
  }

  function FieldNodes(key: Key, tail: Option<nat>, t: Tree, i: nat): seq<NodeHit>
    requires i < |t.fields|
    decreases t, 1, 0
  {
    if !t.fields[i].active then []
    else
      match t.fields[i].value
      case Child(one) => SlotNodes(key, tail, t, one)
      case Children(many) => ItemNodes(key, tail, t, many, 0)
      case _ => []
  }

  function ItemNodes(key: Key, tail: Option<nat>, t: Tree, many: seq<MessageSlot>, j: nat): seq<NodeHit>
    requires j <= |many| && forall k | 0 <= k < |many| :: many[k] < t
    decreases t, 0, |many| - j
  {
    if j == |many| then [] else SlotNodes(key, tail, t, many[j]) + ItemNodes(key, tail, t, many, j + 1)
  }

  function SlotNodes(key: Key, tail: Option<nat>, t: Tree, slot: MessageSlot): seq<NodeHit>
    requires slot < t
    decreases t, 0, 0
  {
    match slot.child
    case None => []
    case Some(child) => Mark(key, tail, t, slot.addr, child) + Nodes(key, tail, child)
  }

  function Mark(key: Key, tail: Option<nat>, parent: Tree, slot: nat, child: Tree): seq<NodeHit> {
    if Counts(child, tail) then [Hit(KeyOf(key, child), NodeInfo(slot, parent.id))] else []
  }

  // ----- the walker

  method RecordNode(key: Key, tail: Option<nat>, parent: Tree, slot: nat, child: Tree, search: Search<NodeInfo>)
    requires !search.Over()
    modifies search
    ensures search.State() == Run(search.mode, old(search.State()), Mark(key, tail, parent, slot, child))
  {
    var hits := Mark(key, tail, parent, slot, child);
    if |hits| == 1 {
      RunOne(search.mode, search.State(), hits[0]);
      search.Record(hits[0]);
    }
  }

  /** Numbers the nodes below t; a search leaves as soon as its target is found. */
  method Walk(key: Key, tail: Option<nat>, t: Tree, search: Search<NodeInfo>)
    requires search.mode.exitOnMatch
    modifies search
    ensures search.State() == Run(search.mode, old(search.State()), Nodes(key, tail, t))
    decreases t, 2
  {
    if search.Over() {
      return;
    }
    for i := 0 to |t.fields|
      invariant !search.Over()
      invariant Run(search.mode, search.State(), NodesFrom(key, tail, t, i))
             == Run(search.mode, old(search.State()), Nodes(key, tail, t))
    {
      ghost var before := search.State();
      if t.fields[i].active {
        match t.fields[i].value {
          case Child(one) => WalkSlot(key, tail, t, one, search);
          case Children(many) => WalkItems(key, tail, t, many, search);
          case _ =>
        }
      }
      RunJoin(search.mode, before, FieldNodes(key, tail, t, i), NodesFrom(key, tail, t, i + 1));
      if search.Over() {
        return;
      }
    }
  }

  method WalkItems(key: Key, tail: Option<nat>, t: Tree, many: seq<MessageSlot>, search: Search<NodeInfo>)
    requires search.mode.exitOnMatch && !search.Over() && forall k | 0 <= k < |many| :: many[k] < t
    modifies search
    ensures search.State() == Run(search.mode, old(search.State()), ItemNodes(key, tail, t, many, 0))
    decreases t, 1
  {
    for j := 0 to |many|
      invariant !search.Over()
      invariant Run(search.mode, search.State(), ItemNodes(key, tail, t, many, j))
             == Run(search.mode, old(search.State()), ItemNodes(key, tail, t, many, 0))
    {
      ghost var before := search.State();
      WalkSlot(key, tail, t, many[j], search);
      RunJoin(search.mode, before, SlotNodes(key, tail, t, many[j]), ItemNodes(key, tail, t, many, j + 1));
      if search.Over() {
        return;
      }
    }
  }

  method WalkSlot(key: Key, tail: Option<nat>, t: Tree, slot: MessageSlot, search: Search<NodeInfo>)
    requires search.mode.exitOnMatch && !search.Over() && slot < t
    modifies search
    ensures search.State() == Run(search.mode, old(search.State()), SlotNodes(key, tail, t, slot))
    decreases t, 0
  {
    match slot.child {
      case None =>
      case Some(child) =>
        RunJoin(search.mode, search.State(), Mark(key, tail, t, slot.addr, child), Nodes(key, tail, child));
        RecordNode(key, tail, t, slot.addr, child, search);
        if search.Over() {
          return;
        }
        Walk(key, tail, child, search);
    }
  }

  // ----- the public searches

  /** The slot of the node with an ordinal, or InvalidArgument past the end. */
  method NodeSlotByIndex(statement: Tree, tail: Option<nat>, index: nat) returns (status: Status, hit: Option<NodeHit>)
    ensures var nodes := Nodes(NodeKey, tail, statement);
            && (status == Ok <==> index < |nodes|)
            && (status != Ok ==> status == InvalidArgument)
            && hit == (if index < |nodes| then Some(nodes[index]) else None)
  {
    var search := new Search<NodeInfo>(Mode(true, None, true), index);
    Walk(NodeKey, tail, statement, search);
    ModeIrrelevant(search.mode, BY_INDEX, Start(index), Nodes(NodeKey, tail, statement));
    IndexFinds(Start(index), Nodes(NodeKey, tail, statement));
    hit := search.target;
    status := if hit.None? then InvalidArgument else Ok;
  }

  /** The exit flag does not matter to a search that looks for no identity. */
  lemma {:induction false} ModeIrrelevant<E>(a: Mode, b: Mode, p: Progress<E>, hits: seq<Hit<E>>)
    requires a.matchAddr.None? && b.matchAddr.None? && a.wantTarget == b.wantTarget
    ensures Run(a, p, hits) == Run(b, p, hits)
    decreases |hits|
  {
    if hits != [] {
      ModeIrrelevant(a, b, Recorded(a, p, hits[0]), hits[1..]);
    }
  }

  /** Finds a node by itself or by the constant it wraps, and tells its ordinal. */
  method Find(key: Key, statement: Tree, tail: Option<nat>, id: nat)
    returns (status: Status, index: nat, hit: Option<NodeHit>)
    ensures status == Ok <==> exists h | h in Nodes(key, tail, statement) :: h.addr == id
    ensures status != Ok ==> status == InvalidArgument && hit == None
    ensures var nodes := Nodes(key, tail, statement);
            status == Ok ==> && index < |nodes| && hit == Some(nodes[index]) && nodes[index].addr == id
                             && forall i | 0 <= i < index :: nodes[i].addr != id
  {
    var search := new Search<NodeInfo>(ByAddr(id, true), 0);
    Walk(key, tail, statement, search);
    ghost var nodes := Nodes(key, tail, statement);
    FirstMatch(id, Start(0), nodes);
    hit, index := search.target, search.targetIndex;
    status := if hit.None? then InvalidArgument else Ok;
  }

  /** A search that leaves early reports the first entry with the address. */
  lemma {:induction false} FirstMatch<E>(id: nat, p: Progress<E>, hits: seq<Hit<E>>)
    requires p.target == None
    ensures var r := Run(ByAddr(id, true), p, hits);
      && (r.target.Some? <==> exists h | h in hits :: h.addr == id)
      && (r.target.Some? ==>
            && p.seen <= r.targetIndex < p.seen + |hits|
            && r.target.value == hits[r.targetIndex - p.seen] && r.target.value.addr == id
            && forall i | 0 <= i < r.targetIndex - p.seen :: hits[i].addr != id)
    decreases |hits|
  {
    if hits != [] {
      var m := ByAddr(id, true);
      var next := Recorded(m, p, hits[0]);
      if hits[0].addr == id {
        RunFinished(m, next, hits[1..]);
      } else {
        FirstMatch(id, next, hits[1..]);
        assert forall h :: h in hits <==> h == hits[0] || h in hits[1..];
      }
    }
  }
}

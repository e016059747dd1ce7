/** How the Node of a literal is found, by the WHERE walker and by a search of the
    whole statement. */
module StatementLiterals {
  import opened Wrappers
  import opened AstTree
  import opened OrdinalSearch
  import opened LiteralView
  import L = LiteralWalk
  import M = MessageWalk
  import N = NodeWalk

  // ----- node keys and constant keys side by side

  /** The same slots, numbered under two keys. */
  ghost predicate Twin(a: seq<N.NodeHit>, b: seq<N.NodeHit>) {
    |a| == |b| && forall i | 0 <= i < |a| :: a[i].info == b[i].info
  }

  /** A node stands in both, at the same index. */
  ghost predicate InBoth(a: seq<N.NodeHit>, b: seq<N.NodeHit>, n: Tree) {
    Twin(a, b) && exists i :: 0 <= i < |a| && a[i].addr == n.id && b[i].addr == N.KeyOf(N.ConstantKey, n)
  }

  lemma TwinJoin(a: seq<N.NodeHit>, b: seq<N.NodeHit>, c: seq<N.NodeHit>, d: seq<N.NodeHit>)
    requires Twin(a, b) && Twin(c, d)
    ensures Twin(a + c, b + d)
  {
  }

  lemma InLeft(a: seq<N.NodeHit>, b: seq<N.NodeHit>, c: seq<N.NodeHit>, d: seq<N.NodeHit>, n: Tree)
    requires InBoth(a, b, n) && Twin(c, d)
    ensures InBoth(a + c, b + d, n)
  {
    hide N.KeyOf;
    var i :| 0 <= i < |a| && a[i].addr == n.id && b[i].addr == N.KeyOf(N.ConstantKey, n);
    assert (a + c)[i] == a[i] && (b + d)[i] == b[i];
  }

  lemma InRight(a: seq<N.NodeHit>, b: seq<N.NodeHit>, c: seq<N.NodeHit>, d: seq<N.NodeHit>, n: Tree)
    requires Twin(a, b) && InBoth(c, d, n)
    ensures InBoth(a + c, b + d, n)
  {
    hide N.KeyOf;
    var i :| 0 <= i < |c| && c[i].addr == n.id && d[i].addr == N.KeyOf(N.ConstantKey, n);
    assert (a + c)[|a| + i] == c[i] && (b + d)[|b| + i] == d[i];
  }

  lemma {:induction false} TwinNodes(tail: Option<nat>, t: Tree)
    ensures Twin(N.Nodes(N.NodeKey, tail, t), N.Nodes(N.ConstantKey, tail, t))
    decreases t, 3, 0
  {
    TwinFrom(tail, t, 0);
  }

  lemma {:induction false} TwinFrom(tail: Option<nat>, t: Tree, i: nat)
    requires i <= |t.fields|
    ensures Twin(N.NodesFrom(N.NodeKey, tail, t, i), N.NodesFrom(N.ConstantKey, tail, t, i))
    decreases t, 2, |t.fields| - i
  {
    hide Twin, N.FieldNodes;
    if i < |t.fields| {
      TwinField(tail, t, i);
      TwinFrom(tail, t, i + 1);
      TwinJoin(N.FieldNodes(N.NodeKey, tail, t, i), N.FieldNodes(N.ConstantKey, tail, t, i),
               N.NodesFrom(N.NodeKey, tail, t, i + 1), N.NodesFrom(N.ConstantKey, tail, t, i + 1));
    } else {
      TwinNothing();
    }
  }

  lemma TwinNothing()
    ensures Twin([], [])
  {
  }

  lemma {:induction false} TwinField(tail: Option<nat>, t: Tree, i: nat)
    requires i < |t.fields|
    ensures Twin(N.FieldNodes(N.NodeKey, tail, t, i), N.FieldNodes(N.ConstantKey, tail, t, i))
    decreases t, 1, 0
  {
    hide Twin, N.SlotNodes, N.ItemNodes;
    TwinNothing();
    if t.fields[i].active {
      match t.fields[i].value {
        case Child(one) => TwinSlot(tail, t, one);
        case Children(many) => TwinItems(tail, t, many, 0);
        case _ =>
      }
    }
  }

  lemma {:induction false} TwinItems(tail: Option<nat>, t: Tree, many: seq<MessageSlot>, j: nat)
    requires j <= |many| && forall k | 0 <= k < |many| :: many[k] < t
    ensures Twin(N.ItemNodes(N.NodeKey, tail, t, many, j), N.ItemNodes(N.ConstantKey, tail, t, many, j))
    decreases t, 0, |many| - j + 1
  {
    hide Twin, N.SlotNodes;
    TwinNothing();
    if j < |many| {
      TwinSlot(tail, t, many[j]);
      TwinItems(tail, t, many, j + 1);
      TwinJoin(N.SlotNodes(N.NodeKey, tail, t, many[j]), N.SlotNodes(N.ConstantKey, tail, t, many[j]),
               N.ItemNodes(N.NodeKey, tail, t, many, j + 1), N.ItemNodes(N.ConstantKey, tail, t, many, j + 1));
    }
  }

  lemma {:induction false} TwinSlot(tail: Option<nat>, t: Tree, slot: MessageSlot)
    requires slot < t
    ensures Twin(N.SlotNodes(N.NodeKey, tail, t, slot), N.SlotNodes(N.ConstantKey, tail, t, slot))
    decreases t, 0, 0
  {
    hide N.Nodes, N.Counts, N.KeyOf;
    if slot.child.Some? {
      var child := slot.child.value;
      TwinNodes(tail, child);
      TwinJoin(N.Mark(N.NodeKey, tail, t, slot.addr, child), N.Mark(N.ConstantKey, tail, t, slot.addr, child),
               N.Nodes(N.NodeKey, tail, child), N.Nodes(N.ConstantKey, tail, child));
    }
  }

  // ----- a counted node below a message has an ordinal

  lemma {:induction false} UnderSmaller(t: Tree, x: Tree)
    requires Under(t, x)
    ensures x == t || x < t
    decreases t
  {
    if x != t {
      var c: Tree :| c < t && ChildOf(t, c) && Under(c, x);
      UnderSmaller(c, x);
    }
  }

  /** Every counted node below a message is numbered under both keys alike. */
  lemma {:induction false} NodeNumbered(tail: Option<nat>, t: Tree, n: Tree)
    requires Under(t, n) && n != t && N.Counts(n, tail)
    ensures InBoth(N.Nodes(N.NodeKey, tail, t), N.Nodes(N.ConstantKey, tail, t), n)
    decreases t, 3, 0
  {
    hide InBoth, N.Counts, HoldsChild;
    var c: Tree :| c < t && ChildOf(t, c) && Under(c, n);
    var i :| 0 <= i < |t.fields| && t.fields[i].active && HoldsChild(t.fields[i].value, c);
    NumberedFrom(tail, t, 0, i, c, n);
  }

  lemma {:induction false} NumberedFrom(tail: Option<nat>, t: Tree, i: nat, at: nat, c: Tree, n: Tree)
    requires i <= at < |t.fields| && t.fields[at].active && HoldsChild(t.fields[at].value, c) && c < t
    requires Under(c, n) && N.Counts(n, tail)
    ensures InBoth(N.NodesFrom(N.NodeKey, tail, t, i), N.NodesFrom(N.ConstantKey, tail, t, i), n)
    decreases t, 2, |t.fields| - i
  {
    hide InBoth, Twin, N.Counts, HoldsChild, Under, N.FieldNodes;
    var a, b := N.FieldNodes(N.NodeKey, tail, t, i), N.FieldNodes(N.ConstantKey, tail, t, i);
    TwinField(tail, t, i);
    TwinFrom(tail, t, i + 1);
    var d, e := N.NodesFrom(N.NodeKey, tail, t, i + 1), N.NodesFrom(N.ConstantKey, tail, t, i + 1);
    if i == at {
      NumberedField(tail, t, at, c, n);
      InLeft(a, b, d, e, n);
    } else {
      NumberedFrom(tail, t, i + 1, at, c, n);
      InRight(a, b, d, e, n);
    }
  }

  lemma {:induction false} NumberedField(tail: Option<nat>, t: Tree, i: nat, c: Tree, n: Tree)
    requires i < |t.fields| && t.fields[i].active && HoldsChild(t.fields[i].value, c) && c < t
    requires Under(c, n) && N.Counts(n, tail)
    ensures InBoth(N.FieldNodes(N.NodeKey, tail, t, i), N.FieldNodes(N.ConstantKey, tail, t, i), n)
    decreases t, 1, 0
  {
    hide InBoth, N.Counts, Under, N.SlotNodes, N.ItemNodes;
    match t.fields[i].value {
      case Child(one) => NumberedSlot(tail, t, one, c, n);
      case Children(many) =>
        var k :| 0 <= k < |many| && many[k].child == Some(c);
        NumberedItems(tail, t, many, 0, k, c, n);
    }
  }

  lemma {:induction false} NumberedItems(tail: Option<nat>, t: Tree, many: seq<MessageSlot>, j: nat, k: nat, c: Tree,
                                         n: Tree)
    requires j <= k < |many| && many[k].child == Some(c) && forall k | 0 <= k < |many| :: many[k] < t
    requires c < t && Under(c, n) && N.Counts(n, tail)
    ensures InBoth(N.ItemNodes(N.NodeKey, tail, t, many, j), N.ItemNodes(N.ConstantKey, tail, t, many, j), n)
    decreases t, 0, |many| - j + 1
  {
    hide InBoth, Twin, N.Counts, Under, N.SlotNodes;
    var a, b := N.SlotNodes(N.NodeKey, tail, t, many[j]), N.SlotNodes(N.ConstantKey, tail, t, many[j]);
    var d, e := N.ItemNodes(N.NodeKey, tail, t, many, j + 1), N.ItemNodes(N.ConstantKey, tail, t, many, j + 1);
    TwinSlot(tail, t, many[j]);
    TwinItems(tail, t, many, j + 1);
    if j == k {
      NumberedSlot(tail, t, many[j], c, n);
      InLeft(a, b, d, e, n);
    } else {
      NumberedItems(tail, t, many, j + 1, k, c, n);
      InRight(a, b, d, e, n);
    }
  }

  lemma {:induction false} NumberedSlot(tail: Option<nat>, t: Tree, slot: MessageSlot, c: Tree, n: Tree)
    requires slot < t && slot.child == Some(c) && c < t && Under(c, n) && N.Counts(n, tail)
    ensures InBoth(N.SlotNodes(N.NodeKey, tail, t, slot), N.SlotNodes(N.ConstantKey, tail, t, slot), n)
    decreases t, 0, 0
  {
    hide InBoth, N.Counts, N.Nodes, N.KeyOf, Under;
    var a, b := N.Mark(N.NodeKey, tail, t, slot.addr, c), N.Mark(N.ConstantKey, tail, t, slot.addr, c);
    var d, e := N.Nodes(N.NodeKey, tail, c), N.Nodes(N.ConstantKey, tail, c);
    TwinNodes(tail, c);
    if c == n {
      Marked(tail, t, slot.addr, n);
      InLeft(a, b, d, e, n);
    } else {
      NodeNumbered(tail, c, n);
      InRight(a, b, d, e, n);
    }
  }

  lemma Marked(tail: Option<nat>, parent: Tree, slot: nat, n: Tree)
    requires N.Counts(n, tail)
    ensures InBoth(N.Mark(N.NodeKey, tail, parent, slot, n), N.Mark(N.ConstantKey, tail, parent, slot, n), n)
  {
    hide N.Counts;
    var a, b := N.Mark(N.NodeKey, tail, parent, slot, n), N.Mark(N.ConstantKey, tail, parent, slot, n);
    assert a[0].addr == n.id && b[0].addr == N.KeyOf(N.ConstantKey, n);
  }

  // ----- the Node of a literal

  lemma ConstNodesCount(n: Tree, tail: Option<nat>)
    requires N.Wraps(n, CONST)
    ensures N.Counts(n, tail)
  {
    assert |CONST| == 6 && |INDIRECTION| == 12 && |"SelectStmt"| == 10 && |"ResTarget"| == 9 && |"SubLink"| == 7;
  }

  /** The Node that the WHERE walker reports for a literal has an ordinal, and under
      that ordinal stands the constant. */
  lemma ReportedNode(statement: Tree, tail: Option<nat>, clause: Tree, l: L.Literal)
    requires Under(statement, clause) && clause != statement
    requires l in L.Literals(Seen(clause), L.BLANK)
    ensures var nodes, constants := N.Nodes(N.NodeKey, tail, statement), N.Nodes(N.ConstantKey, tail, statement);
            && |nodes| == |constants|
            && exists i :: 0 <= i < |nodes| && nodes[i].addr == l.info.node && constants[i].addr == l.addr + 1
  {
    hide Under, Seen, N.Nodes, N.Counts;
    LiteralUnder(clause, L.BLANK, l);
    var n: Tree :| Under(clause, n) && Holds(n, l.info.node, l.addr, l.info.constant);
    UnderSmaller(clause, n);
    UnderSmaller(statement, clause);
    UnderChain(statement, clause, n);
    ConstNodesCount(n, tail);
    NodeNumbered(tail, statement, n);
  }

  /** No constant stands in two Nodes. */
  ghost predicate OneNodeEach(constants: seq<N.NodeHit>) {
    forall i, j | 0 <= i < j < |constants| :: constants[i].addr != 0 ==> constants[i].addr != constants[j].addr
  }

  /** Finds a literal and the ordinal of its Node: a WHERE literal by the walker, another
      by its message ordinal, and then either by a search for its constant. */
  method FindLiteralNode(statement: Tree, tail: Option<nat>, clause: Option<Tree>,
                         index: nat,
                         whereOnly: bool)
    returns (status: Status, ordinal: nat)
    requires whereOnly && clause.Some? ==> Under(statement, clause.value) && clause.value != statement
    ensures status == Ok || status == InvalidArgument
    ensures var literals := if clause.Some? then L.Literals(Seen(clause.value), L.BLANK) else [];
            var nodes, constants := N.Nodes(N.NodeKey, tail, statement), N.Nodes(N.ConstantKey, tail, statement);
            whereOnly ==> && (status == Ok <==> index < |literals|)
                          && (status == Ok ==>
                                && ordinal < |constants| == |nodes|
                                && constants[ordinal].addr == literals[index].addr + 1
                                && (OneNodeEach(constants) ==> nodes[ordinal].addr == literals[index].info.node))
    ensures var literals, constants := M.Messages(IsLiteral, statement), N.Nodes(N.ConstantKey, tail, statement);
            !whereOnly ==> && (status == Ok <==> index < |literals|
                                                 && exists h | h in constants :: h.addr == literals[index].addr + 1)
                           && (status == Ok
                               ==> ordinal < |constants| && constants[ordinal].addr == literals[index].addr + 1)
  {
    hide Seen, Under, L.Literals, N.Nodes, M.Messages;
    var id: nat;
    if whereOnly {
      var literal;
      status, literal := L.FindLiteral(if clause.Some? then Some(Seen(clause.value)) else None, index);
      if status != Ok {
        return InvalidArgument, 0;
      }
      id := literal.value.addr;
      ReportedNode(statement, tail, clause.value, literal.value);
    } else {
      var search := new Search<Tree>(BY_INDEX, index);
      M.Walk(IsLiteral, statement, search);
      IndexFinds(Start(index), M.Messages(IsLiteral, statement));
      if search.target.None? {
        return InvalidArgument, 0;
      }
      id := search.target.value.addr;
    }
    var hit;
    status, ordinal, hit := N.Find(N.ConstantKey, statement, tail, id + 1);
  }
}

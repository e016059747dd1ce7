/** Laws of the node numbering: the searches are inverse and parentheses are transparent. */
module NodeLaws {
  import opened Wrappers
  import opened AstTree
  import opened OrdinalSearch
  import opened NodeWalk
  import opened Parentheses

  // ----- the searches are inverse

  /** When no node stands in two slots, looking up the ordinal of the node at an
      ordinal gives that ordinal back. */
  method ReadThenFind(statement: Tree, tail: Option<nat>, index: nat) returns (same: bool)
    requires DistinctAddrs(Nodes(NodeKey, tail, statement))
    ensures same <==> index < |Nodes(NodeKey, tail, statement)|
  {
    var status, hit := NodeSlotByIndex(statement, tail, index);
    if status != Ok {
      return false;
    }
    var found, at, _ := Find(NodeKey, statement, tail, hit.value.addr);
    assert hit.value in Nodes(NodeKey, tail, statement);
    same := found == Ok && at == index;
  }

  // ----- parentheses

  /** A Node wraps no Node, and no parentheses stand between the wrappers that
      encode a DML tail. */
  predicate WellShaped(tail: Option<nat>, t: Tree)
    decreases t, 1
  {
    && ShapedMessage(tail, t)
    && forall i | 0 <= i < |t.fields| :: ShapedField(tail, t, i)
  }

  predicate ShapedMessage(tail: Option<nat>, t: Tree) {
    && (IsNode(t) && Wrapped(t).Some? ==> !IsNode(Wrapped(t).value))
    && (tail.Some? ==>
          && (t.kind == "ResTarget" ==> Bare(Get(t, "val")))
          && (t.kind == "SubLink" ==> Bare(Get(t, "subselect"))))
  }

  predicate Bare(t: Option<Tree>) {
    t.Some?
    ==> !IsParenthesis(t.value) && (IsNode(t.value) && Wrapped(t.value).Some? ==> !IsNode(Wrapped(t.value).value))
  }

  predicate ShapedField(tail: Option<nat>, t: Tree, i: nat)
    requires i < |t.fields|
    decreases t, 0
  {
    match t.fields[i].value
    case Child(one) => one.child.Some? ==> WellShaped(tail, one.child.value)
    case Children(many) => forall j | 0 <= j < |many| :: many[j].child.Some? ==> WellShaped(tail, many[j].child.value)
    case _ => true
  }

  /** What a child contributes: itself, then everything below it. */
  function Entry(key: Key, tail: Option<nat>, child: Tree): seq<nat> {
    (if Counts(child, tail) then [KeyOf(key, child)] else []) + Addrs(Nodes(key, tail, child))
  }

  lemma SlotEntry(key: Key, tail: Option<nat>, t: Tree, slot: MessageSlot)
    requires slot < t
    ensures Addrs(SlotNodes(key, tail, t, slot)) == if slot.child.Some? then Entry(key, tail, slot.child.value) else []
  {
    if slot.child.Some? {
      AddrsJoin(Mark(key, tail, t, slot.addr, slot.child.value), Nodes(key, tail, slot.child.value));
    }
  }

  lemma SameWraps(t: Tree, kind: string)
    requires !IsParenthesis(t) && (IsNode(t) && Wrapped(t).Some? ==> !IsNode(Wrapped(t).value))
    ensures Wraps(Strip(t), kind) <==> Wraps(t, kind)
    ensures Wraps(t, kind) ==> Wrapped(Strip(t)).value.id == Wrapped(t).value.id
    ensures Wraps(t, kind) ==> Wrapped(Strip(t)) == Some(Strip(Wrapped(t).value))
    ensures IsGroupingWrapper(Strip(t)) <==> IsGroupingWrapper(t)
  {
    SameMessage(t);
    SameWrapped(t);
    if IsNode(t) && Wrapped(t).Some? {
      SameMessage(Wrapped(t).value);
    }
  }

  lemma SameKey(key: Key, t: Tree)
    requires !IsParenthesis(t) && (IsNode(t) && Wrapped(t).Some? ==> !IsNode(Wrapped(t).value))
    ensures KeyOf(key, Strip(t)) == KeyOf(key, t)
  {
    SameWraps(t, "AConst");
    SameMessage(t);
  }

  lemma ShapedWrapped(tail: Option<nat>, t: Tree)
    requires WellShaped(tail, t) && IsNode(t) && Wrapped(t).Some?
    ensures WellShaped(tail, Wrapped(t).value)
  {
    assert ShapedField(tail, t, 0);
  }

  lemma ShapedGet(tail: Option<nat>, t: Tree, name: string)
    requires WellShaped(tail, t) && Get(t, name).Some?
    ensures WellShaped(tail, Get(t, name).value)
  {
    assert ShapedField(tail, t, FieldIndex(t, name, 0));
  }

  lemma SameSubselect(link: Tree, select: nat)
    requires link.kind == "SubLink" && ShapedMessage(Some(select), link)
    ensures var a, b := Get(Strip(link), "subselect"), Get(link, "subselect");
            (a.Some? && WrapsSelect(a.value, select)) <==> (b.Some? && WrapsSelect(b.value, select))
  {
    assert |"SubLink"| != |NODE|;
    SameGet(link, "subselect");
    var b := Get(link, "subselect");
    if b.Some? {
      SameWraps(b.value, "SelectStmt");
    }
  }

  lemma SameTailWrapper(tail: Option<nat>, t: Tree)
    requires WellShaped(tail, t) && !IsParenthesis(t)
    ensures IsTailWrapper(Strip(t), tail) <==> IsTailWrapper(t, tail)
  {
    hide Strip, IsParenthesis;
    if tail.Some? {
      SameWraps(t, "SelectStmt");
      SameWraps(t, "ResTarget");
      SameWraps(t, "SubLink");
      if Wraps(t, "ResTarget") {
        SameTarget(tail, t);
      } else if Wraps(t, "SubLink") {
        ShapedWrapped(tail, t);
        SameSubselect(Wrapped(t).value, tail.value);
      }
    }
  }

  lemma SameTarget(tail: Option<nat>, t: Tree)
    requires WellShaped(tail, t) && !IsParenthesis(t) && tail.Some? && Wraps(t, "ResTarget")
    ensures IsTailWrapper(Strip(t), tail) <==> IsTailWrapper(t, tail)
  {
    SameWraps(t, "ResTarget");
    SameWraps(t, "SelectStmt");
    ShapedWrapped(tail, t);
    assert |"ResTarget"| != |NODE|;
    SameGet(Wrapped(t).value, "val");
    var value := Get(Wrapped(t).value, "val");
    if value.Some? {
      SameWraps(value.value, "SubLink");
      if Wraps(value.value, "SubLink") {
        ShapedGet(tail, Wrapped(t).value, "val");
        ShapedWrapped(tail, value.value);
        SameSubselect(Wrapped(value.value).value, tail.value);
      }
    }
  }

  lemma FirstFieldNodes(key: Key, tail: Option<nat>, t: Tree)
    requires |t.fields| == 1 || (|t.fields| == 2 && t.fields[1].value == Children([]))
    requires t.fields[0].active && t.fields[0].value.Child?
    ensures Nodes(key, tail, t) == SlotNodes(key, tail, t, t.fields[0].value.one)
  {
    var first := SlotNodes(key, tail, t, t.fields[0].value.one);
    if |t.fields| == 2 {
      assert NodesFrom(key, tail, t, 2) == [];
      assert FieldNodes(key, tail, t, 1) == [];
    }
    assert NodesFrom(key, tail, t, 1) == [];
    assert NodesFrom(key, tail, t, 0) == first + [] == first;
  }

  lemma ParenthesisEntry(key: Key, tail: Option<nat>, t: Tree)
    requires IsParenthesis(t) && WellShaped(tail, t)
    ensures Entry(key, tail, t) == Entry(key, tail, Inside(t)) && WellShaped(tail, Inside(t))
  {
    var inner := Wrapped(t).value;
    assert FieldIndex(inner, "indirection", 0) == 1;
    ShapedWrapped(tail, t);
    assert ShapedField(tail, inner, 0);
    hide WellShaped, Nodes, Strip;
    FirstFieldNodes(key, tail, t);
    FirstFieldNodes(key, tail, inner);
    SlotEntry(key, tail, inner, inner.fields[0].value.one);
    SlotEntry(key, tail, t, t.fields[0].value.one);
  }

  /** Parentheses change no node ordinal: a child contributes the same nodes, in
      the same order, with and without the parentheses around and below it. */
  lemma {:induction false} ParenthesesAreTransparent(key: Key, tail: Option<nat>, t: Tree)
    requires WellShaped(tail, t)
    ensures Entry(key, tail, Strip(t)) == Entry(key, tail, t)
    ensures !IsParenthesis(t) ==> Addrs(Nodes(key, tail, Strip(t))) == Addrs(Nodes(key, tail, t))
    decreases t, 3, 0
  {
    if IsParenthesis(t) {
      ParenthesisEntry(key, tail, t);
      ParenthesesAreTransparent(key, tail, Inside(t));
    } else {
      SameMessage(t);
      SameWraps(t, INDIRECTION);
      SameKey(key, t);
      SameTailWrapper(tail, t);
      TransparentFrom(key, tail, t, 0);
    }
  }

  lemma {:induction false} TransparentFrom(key: Key, tail: Option<nat>, t: Tree, i: nat)
    requires WellShaped(tail, t) && !IsParenthesis(t) && i <= |t.fields| == |Strip(t).fields|
    ensures Addrs(NodesFrom(key, tail, Strip(t), i)) == Addrs(NodesFrom(key, tail, t, i))
    decreases t, 2, |t.fields| - i
  {
    if i < |t.fields| {
      assert ShapedField(tail, t, i);
      assert Strip(t).fields[i] == StripField(t, i);
      TransparentField(key, tail, t, i);
      TransparentFrom(key, tail, t, i + 1);
      AddrsJoin(FieldNodes(key, tail, t, i), NodesFrom(key, tail, t, i + 1));
      AddrsJoin(FieldNodes(key, tail, Strip(t), i), NodesFrom(key, tail, Strip(t), i + 1));
    }
  }

  lemma {:induction false} TransparentField(key: Key, tail: Option<nat>, t: Tree, i: nat)
    requires i < |t.fields| == |Strip(t).fields| && ShapedField(tail, t, i) && Strip(t).fields[i] == StripField(t, i)
    ensures Addrs(FieldNodes(key, tail, Strip(t), i)) == Addrs(FieldNodes(key, tail, t, i))
    decreases t, 1, 0
  {
    match t.fields[i].value {
      case Child(one) =>
        assert Strip(t).fields[i].value.one.child == StripOption(one.child);
        if one.child.Some? {
          ParenthesesAreTransparent(key, tail, one.child.value);
        }
        hide Strip, StripField, ShapedField, Entry;
        SlotEntry(key, tail, t, one);
        SlotEntry(key, tail, Strip(t), Strip(t).fields[i].value.one);
      case Children(many) => TransparentItems(key, tail, t, i, 0);
      case _ =>
    }
  }

  lemma {:induction false} TransparentItems(key: Key, tail: Option<nat>, t: Tree, i: nat, j: nat)
    requires i < |t.fields| == |Strip(t).fields| && ShapedField(tail, t, i) && Strip(t).fields[i] == StripField(t, i)
    requires t.fields[i].value.Children? && j <= |t.fields[i].value.many|
    ensures Addrs(ItemNodes(key, tail, Strip(t), Strip(t).fields[i].value.many, j))
         == Addrs(ItemNodes(key, tail, t, t.fields[i].value.many, j))
    decreases t, 0, |t.fields[i].value.many| - j
  {
    hide Strip, SlotNodes, Addrs, Counts;
    var many, bare := t.fields[i].value.many, Strip(t).fields[i].value.many;
    if j < |many| {
      TransparentItems(key, tail, t, i, j + 1);
      SlotEntry(key, tail, t, many[j]);
      SlotEntry(key, tail, Strip(t), bare[j]);
      AddrsJoin(SlotNodes(key, tail, t, many[j]), ItemNodes(key, tail, t, many, j + 1));
      AddrsJoin(SlotNodes(key, tail, Strip(t), bare[j]), ItemNodes(key, tail, Strip(t), bare, j + 1));
      if many[j].child.Some? {
        ParenthesesAreTransparent(key, tail, many[j].child.value);
      }
    }
  }
}

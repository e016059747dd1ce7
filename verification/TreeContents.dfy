/** What the walks over a tree find: every message that is accepted, every string slot, and
    every Node that counts. */
module TreeContents {
  import opened Wrappers
  import opened AstTree
  import opened OrdinalSearch
  import opened LiteralView
  import M = MessageWalk
  import N = NodeWalk
  import S = StringWalk
  import W = NameWalk

  /** A message is reached from another one over active fields. */
  lemma {:induction false} UnderMeans(t: Tree, x: Tree)
    ensures Under(t, x) <==> x == t || exists c :: ChildOf(t, c) && Under(c, x)
  {
    if c :| ChildOf(t, c) && Under(c, x) {
      ChildIsSmaller(t, c);
    }
  }

  /** One of the entries from j on. */
  ghost predicate HoldsFrom(many: seq<MessageSlot>, j: nat, c: Tree) {
    exists k | j <= k < |many| :: many[k].child == Some(c)
  }

  lemma HoldsFirst(many: seq<MessageSlot>, j: nat)
    requires j <= |many|
    ensures forall c :: HoldsFrom(many, j, c)
                   <==> j < |many| && (many[j].child == Some(c) || HoldsFrom(many, j + 1, c))
    ensures j == 0 ==> forall c :: HoldsFrom(many, j, c) <==> HoldsChild(Children(many), c)
  {
  }

  // ----- messages

  ghost predicate IsMessage(accept: Tree -> bool, t: Tree, h: M.Message) {
    h.addr == h.info.id && accept(h.info) && Under(t, h.info)
  }

  ghost predicate MessageBelow(accept: Tree -> bool, t: Tree, i: nat, h: M.Message)
    requires i < |t.fields|
  {
    t.fields[i].active && exists c :: HoldsChild(t.fields[i].value, c) && IsMessage(accept, c, h)
  }

  lemma MessageFirstStep(accept: Tree -> bool, t: Tree, h: M.Message)
    ensures IsMessage(accept, t, h)
       <==> || (h == Hit(t.id, t) && accept(t))
            || exists i | 0 <= i < |t.fields| :: MessageBelow(accept, t, i, h)
  {
    UnderMeans(t, h.info);
    if IsMessage(accept, t, h) && h.info != t {
      var c :| ChildOf(t, c) && Under(c, h.info);
      var i :| 0 <= i < |t.fields| && t.fields[i].active && HoldsChild(t.fields[i].value, c);
      assert IsMessage(accept, c, h);
      assert MessageBelow(accept, t, i, h);
    }
    if i :| 0 <= i < |t.fields| && MessageBelow(accept, t, i, h) {
      var c :| HoldsChild(t.fields[i].value, c) && IsMessage(accept, c, h);
      assert ChildOf(t, c);
    }
  }

  /** The enumeration has exactly the accepted messages of the tree. */
  lemma {:induction false} MessagesAre(accept: Tree -> bool, t: Tree, h: M.Message)
    ensures h in M.Messages(accept, t) <==> IsMessage(accept, t, h)
    decreases t, 3, 0
  {
    MessageFirstStep(accept, t, h);
    MessagesFromAre(accept, t, 0, h);
    hide IsMessage, MessageBelow, M.MessagesFrom;
  }

  lemma {:induction false} MessagesFromAre(accept: Tree -> bool, t: Tree, i: nat, h: M.Message)
    requires i <= |t.fields|
    ensures h in M.MessagesFrom(accept, t, i) <==> exists k | i <= k < |t.fields| :: MessageBelow(accept, t, k, h)
    decreases t, 2, |t.fields| - i
  {
    hide MessageBelow, M.FieldMessages;
    if i < |t.fields| {
      FieldMessagesAre(accept, t, i, h);
      MessagesFromAre(accept, t, i + 1, h);
    }
  }

  lemma {:induction false} FieldMessagesAre(accept: Tree -> bool, t: Tree, i: nat, h: M.Message)
    requires i < |t.fields|
    ensures h in M.FieldMessages(accept, t, i) <==> MessageBelow(accept, t, i, h)
    decreases t, 1, 0
  {
    hide IsMessage, M.Messages, M.ItemMessages;
    if t.fields[i].active {
      match t.fields[i].value {
        case Child(one) =>
          if one.child.Some? {
            MessagesAre(accept, one.child.value, h);
          }
        case Children(many) => ItemMessagesAre(accept, t, many, 0, h);
        case _ =>
      }
    }
  }

  lemma {:induction false} ItemMessagesAre(accept: Tree -> bool, t: Tree, many: seq<MessageSlot>, j: nat, h: M.Message)
    requires j <= |many| && forall k | 0 <= k < |many| :: many[k] < t
    ensures h in M.ItemMessages(accept, t, many, j)
       <==> exists c :: HoldsFrom(many, j, c) && IsMessage(accept, c, h)
    decreases t, 0, |many| - j
  {
    HoldsFirst(many, j);
    hide IsMessage, M.Messages, HoldsFrom;
    if j < |many| {
      ItemMessagesAre(accept, t, many, j + 1, h);
      if many[j].child.Some? {
        MessagesAre(accept, many[j].child.value, h);
      }
    }
  }

  /** The SELECTs with a target-list ordinal are those below the statement that have a target. */
  lemma SelectsAre(t: Tree, s: Tree)
    ensures Hit(s.id, s) in M.Selects(t) <==> Under(t, s) && s.kind == "SelectStmt" && GetMany(s, "target_list") != []
  {
    MessagesAre(M.HasTargetList, t, Hit(s.id, s));
  }

  // ----- string slots

  ghost predicate IsSlot(slot: StringSlot, h: S.Str) {
    h.addr == slot.addr && h.info == slot.text
  }

  /** The slot is one of a field of x that is active. */
  ghost predicate HasString(x: Tree, h: S.Str) {
    exists i | 0 <= i < |x.fields| :: HasStringAt(x, i, h)
  }

  ghost predicate HasStringAt(x: Tree, i: nat, h: S.Str)
    requires i < |x.fields|
  {
    && x.fields[i].active
    && match x.fields[i].value
       case Text(slot) => IsSlot(slot, h)
       case Texts(slots) => exists j | 0 <= j < |slots| :: IsSlot(slots[j], h)
       case _ => false
  }

  ghost predicate IsString(t: Tree, h: S.Str) {
    exists x :: Under(t, x) && HasString(x, h)
  }

  ghost predicate StringBelow(t: Tree, i: nat, h: S.Str)
    requires i < |t.fields|
  {
    t.fields[i].active && exists c :: HoldsChild(t.fields[i].value, c) && IsString(c, h)
  }

  lemma StringFirstStep(t: Tree, h: S.Str)
    ensures IsString(t, h)
       <==> exists i | 0 <= i < |t.fields| :: HasStringAt(t, i, h) || StringBelow(t, i, h)
  {
    hide HasStringAt;
    if x :| Under(t, x) && HasString(x, h) {
      if x == t {
        var i :| 0 <= i < |t.fields| && HasStringAt(t, i, h);
      } else {
        UnderMeans(t, x);
        var c :| ChildOf(t, c) && Under(c, x);
        var i :| 0 <= i < |t.fields| && t.fields[i].active && HoldsChild(t.fields[i].value, c);
        assert StringBelow(t, i, h);
      }
    }
    if i :| 0 <= i < |t.fields| && (HasStringAt(t, i, h) || StringBelow(t, i, h)) {
      if HasStringAt(t, i, h) {
        assert Under(t, t) && HasString(t, h);
      } else {
        var c :| HoldsChild(t.fields[i].value, c) && IsString(c, h);
        var x :| Under(c, x) && HasString(x, h);
        assert ChildOf(t, c);
        UnderMeans(t, x);
      }
    }
  }

  /** The enumeration has exactly the string slots of the tree, the empty ones too. */
  lemma {:induction false} StringsAre(t: Tree, h: S.Str)
    ensures h in S.Strings(t) <==> IsString(t, h)
    decreases t, 3, 0
  {
    StringFirstStep(t, h);
    StringsFromAre(t, 0, h);
    hide IsString, HasStringAt, StringBelow, S.StringsFrom;
  }

  lemma {:induction false} StringsFromAre(t: Tree, i: nat, h: S.Str)
    requires i <= |t.fields|
    ensures h in S.StringsFrom(t, i)
       <==> exists k | i <= k < |t.fields| :: HasStringAt(t, k, h) || StringBelow(t, k, h)
    decreases t, 2, |t.fields| - i
  {
    hide HasStringAt, StringBelow, S.FieldStrings;
    if i < |t.fields| {
      FieldStringsAre(t, i, h);
      StringsFromAre(t, i + 1, h);
    }
  }

  lemma {:induction false} FieldStringsAre(t: Tree, i: nat, h: S.Str)
    requires i < |t.fields|
    ensures h in S.FieldStrings(t, i) <==> HasStringAt(t, i, h) || StringBelow(t, i, h)
    decreases t, 1, 0
  {
    hide IsString, S.Strings, S.Slots, S.ItemStrings;
    if t.fields[i].active {
      match t.fields[i].value {
        case Texts(slots) => SlotsAre(slots, 0, h);
        case Child(one) =>
          if one.child.Some? {
            StringsAre(one.child.value, h);
          }
        case Children(many) => ItemStringsAre(t, many, 0, h);
        case _ =>
      }
    }
  }

  lemma {:induction false} SlotsAre(slots: seq<StringSlot>, j: nat, h: S.Str)
    requires j <= |slots|
    ensures h in S.Slots(slots, j) <==> exists k | j <= k < |slots| :: IsSlot(slots[k], h)
    decreases |slots| - j
  {
    if j < |slots| {
      SlotsAre(slots, j + 1, h);
      FirstSlot(slots, j, h);
      hide IsSlot, S.Slots;
    }
  }

  lemma FirstSlot(slots: seq<StringSlot>, j: nat, h: S.Str)
    requires j < |slots|
    ensures h in S.Slots(slots, j) <==> IsSlot(slots[j], h) || h in S.Slots(slots, j + 1)
  {
  }

  lemma {:induction false} ItemStringsAre(t: Tree, many: seq<MessageSlot>, j: nat, h: S.Str)
    requires j <= |many| && forall k | 0 <= k < |many| :: many[k] < t
    ensures h in S.ItemStrings(t, many, j) <==> exists c :: HoldsFrom(many, j, c) && IsString(c, h)
    decreases t, 0, |many| - j
  {
    HoldsFirst(many, j);
    hide IsString, S.Strings, HoldsFrom;
    if j < |many| {
      ItemStringsAre(t, many, j + 1, h);
      if many[j].child.Some? {
        StringsAre(many[j].child.value, h);
      }
    }
  }

  // ----- Nodes

  predicate IsSelect(n: Tree, select: nat) {
    && n.kind == "Node" && Wrapped(n).Some?
    && Wrapped(n).value.kind == "SelectStmt" && Wrapped(n).value.id == select
  }

  predicate IsLink(n: Tree, select: nat) {
    && n.kind == "Node" && Wrapped(n).Some? && Wrapped(n).value.kind == "SubLink"
    && Get(Wrapped(n).value, "subselect").Some? && IsSelect(Get(Wrapped(n).value, "subselect").value, select)
  }

  /** The Node stands around the SELECT of a DML tail, the sublink around it, or the target
      around that. */
  predicate WrapsTail(n: Tree, select: nat) {
    || IsSelect(n, select) || IsLink(n, select)
    || (&& n.kind == "Node" && Wrapped(n).Some? && Wrapped(n).value.kind == "ResTarget"
        && Get(Wrapped(n).value, "val").Some? && IsLink(Get(Wrapped(n).value, "val").value, select))
  }

  lemma CountsMeans(n: Tree, tail: Option<nat>)
    ensures N.Counts(n, tail)
       <==> && n.kind == "Node"
            && !(&& Wrapped(n).Some? && Wrapped(n).value.kind == "AIndirection"
                 && GetMany(Wrapped(n).value, "indirection") == [])
            && (tail.Some? ==> !WrapsTail(n, tail.value))
  {
  }

  /** The Node in the slot counts; it is entered under its own identity, or under that of the
      constant it wraps, one higher because zero stands for no constant. */
  ghost predicate Entered(key: N.Key, tail: Option<nat>, x: Tree, slot: MessageSlot, h: N.NodeHit) {
    && slot.child.Some? && N.Counts(slot.child.value, tail)
    && h.info.slot == slot.addr && h.info.parent == x.id
    && var w := Wrapped(slot.child.value);
       h.addr == if key.NodeKey? then slot.child.value.id
                 else if w.Some? && w.value.kind == "AConst" then w.value.id + 1 else 0
  }

  ghost predicate HasNodeAt(key: N.Key, tail: Option<nat>, x: Tree, i: nat, h: N.NodeHit)
    requires i < |x.fields|
  {
    && x.fields[i].active
    && match x.fields[i].value
       case Child(one) => Entered(key, tail, x, one, h)
       case Children(many) => exists j | 0 <= j < |many| :: Entered(key, tail, x, many[j], h)
       case _ => false
  }

  ghost predicate HasNode(key: N.Key, tail: Option<nat>, x: Tree, h: N.NodeHit) {
    exists i | 0 <= i < |x.fields| :: HasNodeAt(key, tail, x, i, h)
  }

  ghost predicate IsEntry(key: N.Key, tail: Option<nat>, t: Tree, h: N.NodeHit) {
    exists x :: Under(t, x) && HasNode(key, tail, x, h)
  }

  ghost predicate NodeBelow(key: N.Key, tail: Option<nat>, t: Tree, i: nat, h: N.NodeHit)
    requires i < |t.fields|
  {
    t.fields[i].active && exists c :: HoldsChild(t.fields[i].value, c) && IsEntry(key, tail, c, h)
  }

  lemma NodeFirstStep(key: N.Key, tail: Option<nat>, t: Tree, h: N.NodeHit)
    ensures IsEntry(key, tail, t, h)
       <==> exists i | 0 <= i < |t.fields| :: HasNodeAt(key, tail, t, i, h) || NodeBelow(key, tail, t, i, h)
  {
    hide HasNodeAt;
    if x :| Under(t, x) && HasNode(key, tail, x, h) {
      if x == t {
        var i :| 0 <= i < |t.fields| && HasNodeAt(key, tail, t, i, h);
      } else {
        UnderMeans(t, x);
        var c :| ChildOf(t, c) && Under(c, x);
        var i :| 0 <= i < |t.fields| && t.fields[i].active && HoldsChild(t.fields[i].value, c);
        assert NodeBelow(key, tail, t, i, h);
      }
    }
    if i :| 0 <= i < |t.fields| && (HasNodeAt(key, tail, t, i, h) || NodeBelow(key, tail, t, i, h)) {
      if HasNodeAt(key, tail, t, i, h) {
        assert Under(t, t) && HasNode(key, tail, t, h);
      } else {
        var c :| HoldsChild(t.fields[i].value, c) && IsEntry(key, tail, c, h);
        var x :| Under(c, x) && HasNode(key, tail, x, h);
        assert ChildOf(t, c);
        UnderMeans(t, x);
      }
    }
  }

  /** The enumeration has exactly the Nodes of the tree that count. */
  lemma {:induction false} NodesAre(key: N.Key, tail: Option<nat>, t: Tree, h: N.NodeHit)
    ensures h in N.Nodes(key, tail, t) <==> IsEntry(key, tail, t, h)
    decreases t, 3, 0
  {
    NodeFirstStep(key, tail, t, h);
    NodesFromAre(key, tail, t, 0, h);
    hide IsEntry, HasNodeAt, NodeBelow, N.NodesFrom;
  }

  lemma {:induction false} NodesFromAre(key: N.Key, tail: Option<nat>, t: Tree, i: nat, h: N.NodeHit)
    requires i <= |t.fields|
    ensures h in N.NodesFrom(key, tail, t, i)
       <==> exists k | i <= k < |t.fields| :: HasNodeAt(key, tail, t, k, h) || NodeBelow(key, tail, t, k, h)
    decreases t, 2, |t.fields| - i
  {
    hide HasNodeAt, NodeBelow, N.FieldNodes;
    if i < |t.fields| {
      FieldNodesAre(key, tail, t, i, h);
      NodesFromAre(key, tail, t, i + 1, h);
    }
  }

  lemma {:induction false} FieldNodesAre(key: N.Key, tail: Option<nat>, t: Tree, i: nat, h: N.NodeHit)
    requires i < |t.fields|
    ensures h in N.FieldNodes(key, tail, t, i) <==> HasNodeAt(key, tail, t, i, h) || NodeBelow(key, tail, t, i, h)
    decreases t, 1, 0
  {
    hide IsEntry, Entered, N.SlotNodes, N.ItemNodes;
    if t.fields[i].active {
      match t.fields[i].value {
        case Child(one) => SlotNodesAre(key, tail, t, one, h);
        case Children(many) => ItemNodesAre(key, tail, t, many, 0, h);
        case _ =>
      }
    }
  }

  lemma {:induction false} ItemNodesAre(key: N.Key, tail: Option<nat>, t: Tree, many: seq<MessageSlot>, j: nat,
                                        h: N.NodeHit)
    requires j <= |many| && forall k | 0 <= k < |many| :: many[k] < t
    ensures h in N.ItemNodes(key, tail, t, many, j)
       <==> || (exists k | j <= k < |many| :: Entered(key, tail, t, many[k], h))
            || exists c :: HoldsFrom(many, j, c) && IsEntry(key, tail, c, h)
    decreases t, 0, |many| - j + 1
  {
    HoldsFirst(many, j);
    hide IsEntry, Entered, N.SlotNodes, HoldsFrom;
    if j < |many| {
      SlotNodesAre(key, tail, t, many[j], h);
      ItemNodesAre(key, tail, t, many, j + 1, h);
    }
  }

  lemma {:induction false} SlotNodesAre(key: N.Key, tail: Option<nat>, t: Tree, slot: MessageSlot, h: N.NodeHit)
    requires slot < t
    ensures h in N.SlotNodes(key, tail, t, slot)
       <==> || Entered(key, tail, t, slot, h)
            || (slot.child.Some? && IsEntry(key, tail, slot.child.value, h))
    decreases t, 0, 0
  {
    hide IsEntry, N.Nodes, N.Counts;
    if slot.child.Some? {
      NodesAre(key, tail, slot.child.value, h);
      MarkMeans(key, tail, t, slot, h);
    }
  }

  lemma MarkMeans(key: N.Key, tail: Option<nat>, t: Tree, slot: MessageSlot, h: N.NodeHit)
    requires slot.child.Some?
    ensures h in N.Mark(key, tail, t, slot.addr, slot.child.value) <==> Entered(key, tail, t, slot, h)
  {
    hide N.IsTailWrapper;
  }

  // ----- broken arrays

  /** An active repeated field without an array although its count is not zero. */
  predicate HasBroken(x: Tree) {
    exists i | 0 <= i < |x.fields| :: x.fields[i].active && x.fields[i].value in {BrokenTexts, BrokenChildren}
  }

  /** The name walkers get through exactly where no message reached has a broken array. */
  lemma {:induction false} IntactMeans(t: Tree)
    ensures W.Intact(t) <==> forall x | Under(t, x) :: !HasBroken(x)
    decreases t
  {
    forall c | ChildOf(t, c)
      ensures c < t && (W.Intact(c) <==> forall x | Under(c, x) :: !HasBroken(x))
    {
      ChildIsSmaller(t, c);
      IntactMeans(c);
    }
    IntactStep(t);
    hide W.Intact, HasBroken, ChildOf;
    if W.Intact(t) {
      forall x | Under(t, x) ensures !HasBroken(x) {
        UnderMeans(t, x);
      }
    } else if !HasBroken(t) {
      var c :| ChildOf(t, c) && !W.Intact(c);
      var x :| Under(c, x) && HasBroken(x);
      UnderMeans(t, x);
    } else {
      assert Under(t, t);
    }
  }

  lemma IntactStep(t: Tree)
    ensures W.Intact(t) <==> !HasBroken(t) && forall c | ChildOf(t, c) :: W.Intact(c)
  {
    if !HasBroken(t) && forall c | ChildOf(t, c) :: W.Intact(c) {
      forall i | 0 <= i < |t.fields| && t.fields[i].active
        ensures W.IntactField(t, i)
      {
        assert forall c | HoldsChild(t.fields[i].value, c) :: ChildOf(t, c);
        if t.fields[i].value.Children? {
          var many := t.fields[i].value.many;
          forall j | 0 <= j < |many| && many[j].child.Some?
            ensures W.Intact(many[j].child.value)
          {
            assert HoldsChild(t.fields[i].value, many[j].child.value);
          }
        }
      }
    }
    if W.Intact(t) {
      forall c | ChildOf(t, c) ensures W.Intact(c) {
        var i :| 0 <= i < |t.fields| && t.fields[i].active && HoldsChild(t.fields[i].value, c);
        assert W.IntactField(t, i);
      }
    }
  }

  // ----- the order

  datatype Part = StringPart(text: StringSlot) | MessagePart(message: MessageSlot)

  /** The slots of the active fields, field after field. */
  function PartsFrom(t: Tree, i: nat): seq<Part>
    requires i <= |t.fields|
    decreases |t.fields| - i
  {
    if i == |t.fields| then [] else FieldParts(t.fields[i]) + PartsFrom(t, i + 1)
  }

  function FieldParts(f: Field): seq<Part> {
    if !f.active then []
    else
      match f.value
      case Text(slot) => [StringPart(slot)]
      case Texts(slots) => seq(|slots|, j requires 0 <= j < |slots| => StringPart(slots[j]))
      case Child(one) => [MessagePart(one)]
      case Children(many) => MessageParts(many)
      case _ => []
  }

  function MessageParts(many: seq<MessageSlot>): (r: seq<Part>)
    ensures |r| == |many|
  {
    seq(|many|, j requires 0 <= j < |many| => MessagePart(many[j]))
  }

  /** What the parts contribute, one after the other. */
  function Each<A>(of: Part -> seq<A>, parts: seq<Part>): seq<A> {
    if parts == [] then [] else of(parts[0]) + Each(of, parts[1..])
  }

  lemma {:induction false} EachJoin<A>(of: Part -> seq<A>, a: seq<Part>, b: seq<Part>)
    ensures Each(of, a + b) == Each(of, a) + Each(of, b)
    decreases |a|
  {
    if a == [] {
      assert a + b == b;
    } else {
      assert (a + b)[1..] == a[1..] + b;
      EachJoin(of, a[1..], b);
    }
  }

  lemma EachOne<A>(of: Part -> seq<A>, p: Part)
    ensures Each(of, [p]) == of(p)
  {
    assert [p][1..] == [];
  }

  /** What a message contributes to an enumeration of messages: itself, if it is accepted,
      and then what its parts do. */
  function MessagesOf(accept: Tree -> bool): Part -> seq<M.Message> {
    (p: Part) => if p.MessagePart? && p.message.child.Some? then M.Messages(accept, p.message.child.value) else []
  }

  lemma MessagesInOrder(accept: Tree -> bool, t: Tree)
    ensures M.Messages(accept, t)
         == (if accept(t) then [Hit(t.id, t)] else []) + Each(MessagesOf(accept), PartsFrom(t, 0))
  {
    MessagesFromInOrder(accept, t, 0);
  }

  lemma {:induction false} MessagesFromInOrder(accept: Tree -> bool, t: Tree, i: nat)
    requires i <= |t.fields|
    ensures M.MessagesFrom(accept, t, i) == Each(MessagesOf(accept), PartsFrom(t, i))
    decreases |t.fields| - i
  {
    if i < |t.fields| {
      hide M.FieldMessages, MessagesOf, FieldParts, Each;
      var here := FieldParts(t.fields[i]);
      MessagesFromInOrder(accept, t, i + 1);
      EachJoin(MessagesOf(accept), here, PartsFrom(t, i + 1));
      FieldMessagesInOrder(accept, t, i);
    } else {
      assert Each(MessagesOf(accept), PartsFrom(t, i)) == [];
    }
  }

  lemma FieldMessagesInOrder(accept: Tree -> bool, t: Tree, i: nat)
    requires i < |t.fields|
    ensures M.FieldMessages(accept, t, i) == Each(MessagesOf(accept), FieldParts(t.fields[i]))
  {
    var f := t.fields[i];
    if f.active {
      match f.value {
        case Child(one) => EachOne(MessagesOf(accept), MessagePart(one));
        case Children(many) => ItemMessagesInOrder(accept, t, many, 0);
        case Texts(slots) => NoMessages(accept, FieldParts(f));
        case Text(slot) => NoMessages(accept, FieldParts(f));
        case _ =>
      }
    }
  }

  lemma {:induction false} NoMessages(accept: Tree -> bool, parts: seq<Part>)
    requires forall p | p in parts :: p.StringPart?
    ensures Each(MessagesOf(accept), parts) == []
    decreases |parts|
  {
    if parts != [] {
      assert parts[0] in parts;
      NoMessages(accept, parts[1..]);
    }
  }

  lemma {:induction false} ItemMessagesInOrder(accept: Tree -> bool, t: Tree, many: seq<MessageSlot>, j: nat)
    requires j <= |many| && forall k | 0 <= k < |many| :: many[k] < t
    ensures M.ItemMessages(accept, t, many, j) == Each(MessagesOf(accept), MessageParts(many)[j..])
    decreases |many| - j
  {
    if j < |many| {
      ItemMessagesInOrder(accept, t, many, j + 1);
      assert MessageParts(many)[j..][1..] == MessageParts(many)[j + 1..];
    }
  }

  /** The string slots come in the order of the parts. */
  function StringsOf(p: Part): seq<S.Str> {
    match p
    case StringPart(slot) => [Hit(slot.addr, slot.text)]
    case MessagePart(slot) => if slot.child.Some? then S.Strings(slot.child.value) else []
  }

  lemma StringsInOrder(t: Tree)
    ensures S.Strings(t) == Each(StringsOf, PartsFrom(t, 0))
  {
    StringsFromInOrder(t, 0);
  }

  lemma {:induction false} StringsFromInOrder(t: Tree, i: nat)
    requires i <= |t.fields|
    ensures S.StringsFrom(t, i) == Each(StringsOf, PartsFrom(t, i))
    decreases |t.fields| - i
  {
    if i < |t.fields| {
      hide S.FieldStrings, StringsOf, FieldParts, Each;
      StringsFromInOrder(t, i + 1);
      EachJoin(StringsOf, FieldParts(t.fields[i]), PartsFrom(t, i + 1));
      FieldStringsInOrder(t, i);
    } else {
      assert Each(StringsOf, PartsFrom(t, i)) == [];
    }
  }

  lemma FieldStringsInOrder(t: Tree, i: nat)
    requires i < |t.fields|
    ensures S.FieldStrings(t, i) == Each(StringsOf, FieldParts(t.fields[i]))
  {
    var f := t.fields[i];
    if f.active {
      match f.value {
        case Text(slot) => EachOne(StringsOf, StringPart(slot));
        case Texts(slots) => SlotsInOrder(slots, 0);
        case Child(one) => EachOne(StringsOf, MessagePart(one));
        case Children(many) => ItemStringsInOrder(t, many, 0);
        case _ =>
      }
    }
  }

  lemma {:induction false} SlotsInOrder(slots: seq<StringSlot>, j: nat)
    requires j <= |slots|
    ensures var parts := seq(|slots|, k requires 0 <= k < |slots| => StringPart(slots[k]));
            S.Slots(slots, j) == Each(StringsOf, parts[j..])
    decreases |slots| - j
  {
    var parts := seq(|slots|, k requires 0 <= k < |slots| => StringPart(slots[k]));
    if j < |slots| {
      SlotsInOrder(slots, j + 1);
      assert parts[j..][1..] == parts[j + 1..];
    }
  }

  lemma {:induction false} ItemStringsInOrder(t: Tree, many: seq<MessageSlot>, j: nat)
    requires j <= |many| && forall k | 0 <= k < |many| :: many[k] < t
    ensures S.ItemStrings(t, many, j) == Each(StringsOf, MessageParts(many)[j..])
    decreases |many| - j
  {
    if j < |many| {
      ItemStringsInOrder(t, many, j + 1);
      assert MessageParts(many)[j..][1..] == MessageParts(many)[j + 1..];
    }
  }

  /** A Node comes before those below it, and otherwise in the order of the parts. */
  function NodesOf(key: N.Key, tail: Option<nat>, id: nat): Part -> seq<N.NodeHit> {
    (p: Part) =>
      if p.MessagePart? && p.message.child.Some? then
        var n := p.message.child.value;
        (if N.Counts(n, tail) then [Hit(N.KeyOf(key, n), N.NodeInfo(p.message.addr, id))] else [])
        + N.Nodes(key, tail, n)
      else []
  }

  lemma NodesInOrder(key: N.Key, tail: Option<nat>, t: Tree)
    ensures N.Nodes(key, tail, t) == Each(NodesOf(key, tail, t.id), PartsFrom(t, 0))
  {
    NodesFromInOrder(key, tail, t, 0);
  }

  lemma {:induction false} NodesFromInOrder(key: N.Key, tail: Option<nat>, t: Tree, i: nat)
    requires i <= |t.fields|
    ensures N.NodesFrom(key, tail, t, i) == Each(NodesOf(key, tail, t.id), PartsFrom(t, i))
    decreases |t.fields| - i
  {
    if i < |t.fields| {
      hide N.FieldNodes, NodesOf, FieldParts, Each;
      NodesFromInOrder(key, tail, t, i + 1);
      EachJoin(NodesOf(key, tail, t.id), FieldParts(t.fields[i]), PartsFrom(t, i + 1));
      FieldNodesInOrder(key, tail, t, i);
    } else {
      assert Each(NodesOf(key, tail, t.id), PartsFrom(t, i)) == [];
    }
  }

  lemma FieldNodesInOrder(key: N.Key, tail: Option<nat>, t: Tree, i: nat)
    requires i < |t.fields|
    ensures N.FieldNodes(key, tail, t, i) == Each(NodesOf(key, tail, t.id), FieldParts(t.fields[i]))
  {
    var f := t.fields[i];
    if f.active {
      match f.value {
        case Child(one) =>
          SlotInOrder(key, tail, t, one);
          EachOne(NodesOf(key, tail, t.id), MessagePart(one));
        case Children(many) => ItemNodesInOrder(key, tail, t, many, 0);
        case Texts(slots) => NoNodes(key, tail, t.id, FieldParts(f));
        case Text(slot) => NoNodes(key, tail, t.id, FieldParts(f));
        case _ =>
      }
    }
  }

  lemma SlotInOrder(key: N.Key, tail: Option<nat>, t: Tree, slot: MessageSlot)
    requires slot < t
    ensures N.SlotNodes(key, tail, t, slot) == NodesOf(key, tail, t.id)(MessagePart(slot))
  {
    hide N.Counts, N.KeyOf, N.Nodes;
  }

  lemma {:induction false} NoNodes(key: N.Key, tail: Option<nat>, id: nat, parts: seq<Part>)
    requires forall p | p in parts :: p.StringPart?
    ensures Each(NodesOf(key, tail, id), parts) == []
    decreases |parts|
  {
    if parts != [] {
      assert parts[0] in parts;
      NoNodes(key, tail, id, parts[1..]);
    }
  }

  lemma {:induction false} ItemNodesInOrder(key: N.Key, tail: Option<nat>, t: Tree, many: seq<MessageSlot>, j: nat)
    requires j <= |many| && forall k | 0 <= k < |many| :: many[k] < t
    ensures N.ItemNodes(key, tail, t, many, j) == Each(NodesOf(key, tail, t.id), MessageParts(many)[j..])
    decreases |many| - j
  {
    if j < |many| {
      hide N.SlotNodes, NodesOf;
      SlotInOrder(key, tail, t, many[j]);
      ItemNodesInOrder(key, tail, t, many, j + 1);
      assert MessageParts(many)[j..][1..] == MessageParts(many)[j + 1..];
    }
  }
}

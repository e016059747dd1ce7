/** What writing one literal does to all literals of a statement. */
module LiteralEdits {
  import opened Wrappers
  import opened AstTree
  import opened OrdinalSearch
  import opened LiteralView
  import opened Sequences
  import L = LiteralWalk
  import M = MessageWalk

  // ----- the edited tree

  /** The tree in which the literal with this identity has other fields. */
  function Put(t: Tree, cid: nat, fields: seq<Field>): Tree
    decreases t, 1
  {
    if IsLiteral(t) && t.id == cid then Tree(t.id, t.kind, fields)
    else Tree(t.id, t.kind, seq(|t.fields|, i requires 0 <= i < |t.fields| => PutField(t, i, cid, fields)))
  }

  function PutField(t: Tree, i: nat, cid: nat, fields: seq<Field>): Field
    requires i < |t.fields|
    decreases t, 0
  {
    var f := t.fields[i];
    if !f.active then f
    else
      match f.value
      case Child(one) =>
        f.(value := Child(one.(child := if one.child.Some? then Some(Put(one.child.value, cid, fields)) else None)))
      case Children(many) =>
        f.(value := Children(seq(|many|, j requires 0 <= j < |many| =>
            many[j].(child := if many[j].child.Some? then Some(Put(many[j].child.value, cid, fields)) else None))))
      case _ => f
  }

  predicate SelectsFrom(t: Tree, name: string) {
    Sub(t, name).Some? ==> Sub(t, name).value.kind == "SelectStmt"
  }

  /** A message that has no messages, and is no constant. */
  predicate IsLeaf(x: Tree) {
    !IsConst(x) && forall i | 0 <= i < |x.fields| :: !x.fields[i].value.Child? && !x.fields[i].value.Children?
  }

  /** The payload messages of a constant. */
  predicate HoldsLeaves(t: Tree) {
    forall i | 0 <= i < |t.fields| && t.fields[i].active ::
      match t.fields[i].value
      case Child(one) => one.child.Some? ==> IsLeaf(one.child.value)
      case Children(many) => many == []
      case _ => true
  }

  /** As the schema has it, a constant holds its payload only, and the operands of a
      SELECT are SELECTs. */
  predicate Flat(t: Tree)
    decreases t, 1
  {
    && (IsConst(t) ==> HoldsLeaves(t))
    && (t.kind == "SelectStmt" ==> SelectsFrom(t, "larg") && SelectsFrom(t, "rarg"))
    && forall i | 0 <= i < |t.fields| :: FlatField(t, i)
  }

  predicate FlatField(t: Tree, i: nat)
    requires i < |t.fields|
    decreases t, 0
  {
    match t.fields[i].value
    case Child(one) => one.child.Some? ==> Flat(one.child.value)
    case Children(many) => forall j | 0 <= j < |many| :: many[j].child.Some? ==> Flat(many[j].child.value)
    case _ => true
  }

  /** The fields are those of a literal. */
  predicate AreLiteral(cid: nat, fields: seq<Field>) {
    IsLiteral(Tree(cid, CONST, fields)) && M.MessagesFrom(IsConst, Tree(cid, CONST, fields), 0) == []
  }

  // ----- a tree without constants

  lemma {:induction false} NothingToPut(t: Tree, cid: nat, fields: seq<Field>)
    requires M.Messages(IsConst, t) == []
    ensures Put(t, cid, fields) == t && M.Messages(IsLiteral, t) == []
    decreases t, 3, 0
  {
    hide PutField, IsLiteral;
    assert !IsConst(t) && !IsLiteral(t) by {
      assert M.Messages(IsConst, t) == M.Own(IsConst, t) + M.MessagesFrom(IsConst, t, 0);
      NotConst(t);
    }
    NothingFrom(t, 0, cid, fields);
    assert Put(t, cid, fields).fields == t.fields;
  }

  lemma NotConst(t: Tree)
    ensures !IsConst(t) ==> !IsLiteral(t)
  {
  }

  /** Fields without constants stay as they are. */
  lemma {:induction false} NothingFrom(t: Tree, i: nat, cid: nat, fields: seq<Field>)
    requires i <= |t.fields| && M.MessagesFrom(IsConst, t, i) == []
    ensures forall k | i <= k < |t.fields| :: PutField(t, k, cid, fields) == t.fields[k]
    ensures M.MessagesFrom(IsLiteral, t, i) == []
    decreases t, 2, |t.fields| - i
  {
    hide PutField, M.FieldMessages;
    if i < |t.fields| {
      NothingInField(t, i, cid, fields);
      NothingFrom(t, i + 1, cid, fields);
    }
  }

  lemma {:induction false} NothingInField(t: Tree, i: nat, cid: nat, fields: seq<Field>)
    requires i < |t.fields| && M.FieldMessages(IsConst, t, i) == []
    ensures PutField(t, i, cid, fields) == t.fields[i] && M.FieldMessages(IsLiteral, t, i) == []
    decreases t, 1, 0
  {
    hide Put, M.Messages;
    if t.fields[i].active {
      match t.fields[i].value {
        case Child(one) =>
          if one.child.Some? {
            NothingToPut(one.child.value, cid, fields);
          }
        case Children(many) =>
          NothingInItems(t, many, 0, cid, fields);
          assert PutField(t, i, cid, fields).value.many == many;
        case _ =>
      }
    }
  }

  lemma {:induction false} NothingInItems(t: Tree, many: seq<MessageSlot>, j: nat, cid: nat, fields: seq<Field>)
    requires j <= |many| && (forall k | 0 <= k < |many| :: many[k] < t) && M.ItemMessages(IsConst, t, many, j) == []
    ensures forall k | j <= k < |many| && many[k].child.Some? ::
              Put(many[k].child.value, cid, fields) == many[k].child.value
    ensures M.ItemMessages(IsLiteral, t, many, j) == []
    decreases t, 0, |many| - j
  {
    hide Put, M.Messages;
    if j < |many| {
      NothingInItems(t, many, j + 1, cid, fields);
      if many[j].child.Some? {
        NothingToPut(many[j].child.value, cid, fields);
      }
    }
  }

  // ----- the lens

  function Written(h: M.Message, cid: nat, fields: seq<Field>): M.Message {
    if h.addr == cid then Hit(cid, Tree(cid, CONST, fields)) else h
  }

  function AllWritten(hits: seq<M.Message>, cid: nat, fields: seq<Field>): (r: seq<M.Message>)
    ensures |r| == |hits| && forall i | 0 <= i < |hits| :: r[i] == Written(hits[i], cid, fields)
  {
    if hits == [] then [] else [Written(hits[0], cid, fields)] + AllWritten(hits[1..], cid, fields)
  }

  lemma WrittenJoin(a: seq<M.Message>, b: seq<M.Message>, cid: nat, fields: seq<Field>)
    ensures AllWritten(a + b, cid, fields) == AllWritten(a, cid, fields) + AllWritten(b, cid, fields)
  {
    hide AllWritten;
    var whole, parts := AllWritten(a + b, cid, fields), AllWritten(a, cid, fields) + AllWritten(b, cid, fields);
    assert |whole| == |parts| && forall i | 0 <= i < |whole| :: whole[i] == parts[i];
  }

  lemma OwnWritten(t: Tree, cid: nat, fields: seq<Field>)
    requires AreLiteral(cid, fields) && Flat(t)
    ensures IsConst(t)
         ==> M.Messages(IsLiteral, Put(t, cid, fields)) == AllWritten(M.Messages(IsLiteral, t), cid, fields)
  {
    hide Put, PutField, Flat, M.MessagesFrom, ConstantOf;
    if IsConst(t) {
      FlatHere(t);
      NothingFrom(t, 0, cid, fields);
      PutConst(t, cid, fields);
      NothingFrom(Tree(cid, CONST, fields), 0, cid, fields);
      var hits := M.Own(IsLiteral, t);
      assert M.Messages(IsLiteral, t) == hits + [];
      assert hits + [] == hits;
      var after := Put(t, cid, fields);
      assert M.Messages(IsLiteral, after) == M.Own(IsLiteral, after) + M.MessagesFrom(IsLiteral, after, 0);
    }
  }

  lemma FlatHere(t: Tree)
    requires Flat(t) && IsConst(t)
    ensures M.MessagesFrom(IsConst, t, 0) == []
  {
    NoneInLeaves(t, 0);
  }

  lemma {:induction false} NoneInLeaves(t: Tree, i: nat)
    requires HoldsLeaves(t) && i <= |t.fields|
    ensures M.MessagesFrom(IsConst, t, i) == []
    decreases |t.fields| - i
  {
    if i < |t.fields| {
      NoneInLeaves(t, i + 1);
      NoneInPayload(t, i);
    }
  }

  lemma NoneInPayload(t: Tree, i: nat)
    requires HoldsLeaves(t) && i < |t.fields|
    ensures M.FieldMessages(IsConst, t, i) == []
  {
    if t.fields[i].active && t.fields[i].value.Child? && t.fields[i].value.one.child.Some? {
      var x := t.fields[i].value.one.child.value;
      NoneInLeaf(x, 0);
      assert M.Messages(IsConst, x) == M.Own(IsConst, x) + M.MessagesFrom(IsConst, x, 0);
    } else if t.fields[i].active && t.fields[i].value.Children? {
      assert t.fields[i].value.many == [];
      assert M.ItemMessages(IsConst, t, t.fields[i].value.many, 0) == [];
    }
  }

  lemma {:induction false} NoneInLeaf(x: Tree, i: nat)
    requires IsLeaf(x) && i <= |x.fields|
    ensures M.MessagesFrom(IsConst, x, i) == []
    decreases |x.fields| - i
  {
    if i < |x.fields| {
      NoneInLeaf(x, i + 1);
    }
  }

  lemma PutConst(t: Tree, cid: nat, fields: seq<Field>)
    requires IsConst(t) && forall k | 0 <= k < |t.fields| :: PutField(t, k, cid, fields) == t.fields[k]
    ensures Put(t, cid, fields) == if IsLiteral(t) && t.id == cid then Tree(cid, CONST, fields) else t
  {
    hide PutField, ConstantOf;
    if !(IsLiteral(t) && t.id == cid) {
      assert Put(t, cid, fields).fields == t.fields;
    }
  }

  lemma PutOther(t: Tree, cid: nat, fields: seq<Field>)
    requires !IsConst(t)
    ensures var u := Put(t, cid, fields);
            && !IsConst(u) && !IsLiteral(u) && !IsLiteral(t) && |u.fields| == |t.fields|
            && forall i | 0 <= i < |t.fields| :: u.fields[i] == PutField(t, i, cid, fields)
  {
    hide PutField, ConstantOf;
  }

  /** Writing a literal changes that literal only: no count, no order, and no other
      literal of the statement. */
  lemma {:induction false} EditedLiterals(t: Tree, cid: nat, fields: seq<Field>)
    requires AreLiteral(cid, fields) && Flat(t)
    ensures M.Messages(IsLiteral, Put(t, cid, fields)) == AllWritten(M.Messages(IsLiteral, t), cid, fields)
    decreases t, 3, 0
  {
    hide Put, PutField, Flat, AreLiteral, IsConst, IsLiteral, M.MessagesFrom;
    if IsConst(t) {
      OwnWritten(t, cid, fields);
    } else {
      PutOther(t, cid, fields);
      EditedFrom(t, cid, fields, 0);
      var u := Put(t, cid, fields);
      assert M.Messages(IsLiteral, u) == [] + M.MessagesFrom(IsLiteral, u, 0);
      assert M.Messages(IsLiteral, t) == [] + M.MessagesFrom(IsLiteral, t, 0);
      Nothing(M.MessagesFrom(IsLiteral, u, 0));
      Nothing(M.MessagesFrom(IsLiteral, t, 0));
    }
  }

  lemma {:induction false} EditedFrom(t: Tree, cid: nat, fields: seq<Field>, i: nat)
    requires AreLiteral(cid, fields) && Flat(t) && !IsConst(t) && i <= |t.fields| == |Put(t, cid, fields).fields|
    ensures M.MessagesFrom(IsLiteral, Put(t, cid, fields), i)
         == AllWritten(M.MessagesFrom(IsLiteral, t, i), cid, fields)
    decreases t, 2, |t.fields| - i
  {
    hide Put, PutField, Flat, AreLiteral, IsConst, IsLiteral, M.FieldMessages, AllWritten;
    if i < |t.fields| {
      EditedField(t, cid, fields, i);
      EditedFrom(t, cid, fields, i + 1);
      WrittenJoin(M.FieldMessages(IsLiteral, t, i), M.MessagesFrom(IsLiteral, t, i + 1), cid, fields);
    } else {
      NothingWritten(cid, fields);
    }
  }

  lemma NothingWritten(cid: nat, fields: seq<Field>)
    ensures AllWritten([], cid, fields) == []
  {
  }

  lemma {:induction false} EditedField(t: Tree, cid: nat, fields: seq<Field>, i: nat)
    requires AreLiteral(cid, fields) && Flat(t) && !IsConst(t) && i < |t.fields| == |Put(t, cid, fields).fields|
    ensures M.FieldMessages(IsLiteral, Put(t, cid, fields), i)
         == AllWritten(M.FieldMessages(IsLiteral, t, i), cid, fields)
    decreases t, 1, 0
  {
    hide Put, AreLiteral, IsConst, IsLiteral, AllWritten, M.Messages, M.ItemMessages;
    PutOther(t, cid, fields);
    NothingWritten(cid, fields);
    var u := Put(t, cid, fields);
    assert u.fields[i] == PutField(t, i, cid, fields) && FlatField(t, i);
    if t.fields[i].active {
      match t.fields[i].value {
        case Child(one) =>
          if one.child.Some? {
            EditedLiterals(one.child.value, cid, fields);
          }
        case Children(many) =>
          EditedItems(t, u, many, u.fields[i].value.many, cid, fields, 0);
        case _ =>
      }
    }
  }

  lemma {:induction false} EditedItems(t: Tree, u: Tree, many: seq<MessageSlot>, after: seq<MessageSlot>, cid: nat,
                                       fields: seq<Field>, j: nat)
    requires AreLiteral(cid, fields) && j <= |many| == |after|
    requires forall k | 0 <= k < |many| :: many[k] < t && after[k] < u
    requires forall k | 0 <= k < |many| && many[k].child.Some? :: Flat(many[k].child.value)
    requires forall k | 0 <= k < |many| ::
               after[k].child == if many[k].child.Some? then Some(Put(many[k].child.value, cid, fields)) else None
    ensures M.ItemMessages(IsLiteral, u, after, j) == AllWritten(M.ItemMessages(IsLiteral, t, many, j), cid, fields)
    decreases t, 0, |many| - j
  {
    hide Put, Flat, AreLiteral, IsConst, IsLiteral, AllWritten, M.Messages;
    NothingWritten(cid, fields);
    if j < |many| {
      EditedItems(t, u, many, after, cid, fields, j + 1);
      var rest := M.ItemMessages(IsLiteral, t, many, j + 1);
      if many[j].child.Some? {
        var child := many[j].child.value;
        EditedLiterals(child, cid, fields);
        WrittenJoin(M.Messages(IsLiteral, child), rest, cid, fields);
      } else {
        Nothing(rest);
        Nothing(M.ItemMessages(IsLiteral, u, after, j + 1));
      }
    }
  }

  // ----- the fields the setter leaves

  function Alternative(name: string, kind: string, selected: bool, value: Value): Field {
    Field(name, Child(MessageSlot(0, if selected then Some(Tree(0, kind, [Field(name, value, true)])) else None)),
          selected)
  }

  /** The fields of a constant in schema order; the location is kept from before. */
  function Filled(c: L.Constant, location: int): seq<Field> {
    var text := StringSlot(0, Some(match c case Text(t) => t case Float(d) => d case _ => ""));
    [Alternative("ival", "Integer", c.Integer?, Scalar(if c.Integer? then c.number else 0)),
     Alternative("fval", "Float", c.Float?, Text(text)),
     Alternative("boolval", "Boolean", c.Boolean?, Scalar(if c.Boolean? && c.flag then 1 else 0)),
     Alternative("sval", "String", c.Text?, Text(text)),
     Alternative("bsval", "BitString", c.BitString?, Text(text)),
     Field("isnull", Scalar(if c.NullValue? then 1 else 0), true),
     Field("location", Scalar(location), true)]
  }

  lemma FilledIndex(cid: nat, c: L.Constant, location: int)
    ensures var t := Tree(cid, CONST, Filled(c, location));
            && FieldIndex(t, "ival", 0) == 0 && FieldIndex(t, "fval", 0) == 1 && FieldIndex(t, "boolval", 0) == 2
            && FieldIndex(t, "sval", 0) == 3 && FieldIndex(t, "bsval", 0) == 4 && FieldIndex(t, "isnull", 0) == 5
  {
    var t := Tree(cid, CONST, Filled(c, location));
    assert "ival"[0] == 'i' && "fval"[0] == 'f' && "boolval"[0] == 'b' && "sval"[0] == 's';
    assert |"bsval"| == 5 && |"ival"| == 4 && |"boolval"| == 7 && |"isnull"| == 6;
    assert FieldIndex(t, "bsval", 4) == 4 && FieldIndex(t, "bsval", 2) == 4;
    assert FieldIndex(t, "isnull", 5) == 5 && FieldIndex(t, "isnull", 3) == 5 && FieldIndex(t, "isnull", 1) == 5;
    assert FieldIndex(t, "sval", 3) == 3 && FieldIndex(t, "sval", 1) == 3;
    assert FieldIndex(t, "boolval", 2) == 2;
  }

  /** Every supported constant has fields, and they are read back as that constant. */
  lemma FilledReads(cid: nat, c: L.Constant, location: int)
    requires L.Supported(c)
    ensures AreLiteral(cid, Filled(c, location)) && ConstantOf(Tree(cid, CONST, Filled(c, location))) == c
  {
    var t := Tree(cid, CONST, Filled(c, location));
    FilledIndex(cid, c, location);
    FilledConstant(t, c, location);
    FilledFlat(t, c, location, 0);
  }

  lemma FilledConstant(t: Tree, c: L.Constant, location: int)
    requires t.fields == Filled(c, location) && L.Supported(c)
    requires FieldIndex(t, "ival", 0) == 0 && FieldIndex(t, "fval", 0) == 1 && FieldIndex(t, "boolval", 0) == 2
    requires FieldIndex(t, "sval", 0) == 3 && FieldIndex(t, "bsval", 0) == 4 && FieldIndex(t, "isnull", 0) == 5
    ensures ConstantOf(t) == c
  {
    match c {
      case Integer(_) => assert FieldIndex(Sub(t, "ival").value, "ival", 0) == 0;
      case Float(_) => assert FieldIndex(Sub(t, "fval").value, "fval", 0) == 0;
      case Boolean(_) => assert FieldIndex(Sub(t, "boolval").value, "boolval", 0) == 0;
      case Text(_) => assert FieldIndex(Sub(t, "sval").value, "sval", 0) == 0;
      case _ =>
    }
  }

  lemma {:induction false} FilledFlat(t: Tree, c: L.Constant, location: int, i: nat)
    requires t.fields == Filled(c, location) && i <= 7
    ensures M.MessagesFrom(IsConst, t, i) == []
    decreases 7 - i
  {
    if i < 7 {
      FilledFlat(t, c, location, i + 1);
      if t.fields[i].value.Child? && t.fields[i].value.one.child.Some? {
        var child := t.fields[i].value.one.child.value;
        assert !IsConst(child);
        assert M.FieldMessages(IsConst, child, 0) == [] && M.MessagesFrom(IsConst, child, 1) == [];
        assert M.MessagesFrom(IsConst, child, 0)
            == M.FieldMessages(IsConst, child, 0) + M.MessagesFrom(IsConst, child, 1);
      }
      assert M.FieldMessages(IsConst, t, i) == [];
    }
  }

  /** The statement with literal k set to a constant. */
  function WithLiteral(statement: Tree, k: nat, c: L.Constant): Tree
    requires k < |M.Messages(IsLiteral, statement)|
  {
    var h := M.Messages(IsLiteral, statement)[k];
    Put(statement, h.addr, Filled(c, Number(h.info, "location")))
  }

  /** Reading literal k of a statement after writing it gives the written constant,
      every other literal reads as before, and the count stays. */
  lemma WriteThenRead(statement: Tree, k: nat, c: L.Constant)
    requires Flat(statement) && k < |M.Messages(IsLiteral, statement)|
    requires DistinctAddrs(M.Messages(IsLiteral, statement)) && L.Supported(c)
    ensures var before, after := M.Messages(IsLiteral, statement), M.Messages(IsLiteral, WithLiteral(statement, k, c));
            && |after| == |before| && after[k].addr == before[k].addr && ConstantOf(after[k].info) == c
            && forall j | 0 <= j < |before| && j != k :: after[j] == before[j]
  {
    hide Put, Flat, AreLiteral, IsLiteral, ConstantOf, M.Messages, Filled, Number;
    var h := M.Messages(IsLiteral, statement)[k];
    FilledReads(h.addr, c, Number(h.info, "location"));
    EditedLiterals(statement, h.addr, Filled(c, Number(h.info, "location")));
  }
}

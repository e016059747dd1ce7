/** What the WHERE-literal walker sees of the tree, and how its literals sit among
    the messages and nodes of the whole statement. */
module LiteralView {
  import opened Wrappers
  import opened AstTree
  import opened OrdinalSearch
  import L = LiteralWalk
  import N = NodeWalk

  // ----- messages below a message

  predicate HoldsChild(v: Value, c: Tree) {
    match v
    case Child(one) => one.child == Some(c)
    case Children(many) => exists j | 0 <= j < |many| :: many[j].child == Some(c)
    case _ => false
  }

  ghost predicate ChildOf(t: Tree, c: Tree) {
    exists i | 0 <= i < |t.fields| :: t.fields[i].active && HoldsChild(t.fields[i].value, c)
  }

  lemma ChildIsSmaller(t: Tree, c: Tree)
    requires ChildOf(t, c)
    ensures c < t
  {
    var i :| 0 <= i < |t.fields| && t.fields[i].active && HoldsChild(t.fields[i].value, c);
    if t.fields[i].value.Children? {
      var many := t.fields[i].value.many;
      var j :| 0 <= j < |many| && many[j].child == Some(c);
      assert many[j] < t;
    }
  }

  /** The message is reached from the other through active fields. */
  ghost predicate Under(t: Tree, x: Tree)
    decreases t
  {
    x == t || exists c: Tree :: c < t && ChildOf(t, c) && Under(c, x)
  }

  lemma {:induction false} UnderChain(a: Tree, b: Tree, c: Tree)
    requires Under(a, b) && Under(b, c)
    ensures Under(a, c)
    decreases a
  {
    if a != b {
      var k: Tree :| k < a && ChildOf(a, k) && Under(k, b);
      UnderChain(k, b, c);
    }
  }

  lemma ChildUnder(t: Tree, c: Tree)
    requires ChildOf(t, c)
    ensures Under(t, c)
  {
    ChildIsSmaller(t, c);
    assert Under(c, c);
  }

  // ----- active fields by name

  function Sub(t: Tree, name: string): (r: Option<Tree>)
    ensures r.Some? ==> r.value < t && ChildOf(t, r.value)
  {
    var i := FieldIndex(t, name, 0);
    if i < |t.fields| && t.fields[i].active && t.fields[i].value.Child? then
      assert t.fields[i].value.one.child.Some? ==> HoldsChild(t.fields[i].value, t.fields[i].value.one.child.value);
      t.fields[i].value.one.child
    else None
  }

  ghost predicate AreBelow(items: seq<MessageSlot>, t: Tree) {
    forall j | 0 <= j < |items| && items[j].child.Some? :: items[j].child.value < t && ChildOf(t, items[j].child.value)
  }

  function SubMany(t: Tree, name: string): (r: seq<MessageSlot>)
    ensures AreBelow(r, t)
  {
    var i := FieldIndex(t, name, 0);
    if i < |t.fields| && t.fields[i].active && t.fields[i].value.Children? then
      ManyBelow(t, i);
      t.fields[i].value.many
    else []
  }

  lemma ManyBelow(t: Tree, i: nat)
    requires i < |t.fields| && t.fields[i].active && t.fields[i].value.Children?
    ensures AreBelow(t.fields[i].value.many, t)
  {
    var many := t.fields[i].value.many;
    forall j | 0 <= j < |many| && many[j].child.Some?
      ensures many[j].child.value < t && ChildOf(t, many[j].child.value)
    {
      assert HoldsChild(t.fields[i].value, many[j].child.value);
      ChildIsSmaller(t, many[j].child.value);
    }
  }

  predicate Selected(t: Tree, name: string) {
    var i := FieldIndex(t, name, 0);
    i < |t.fields| && t.fields[i].active
  }

  /** The string of a message under a field; a missing message or string reads as empty. */
  function TextOf(m: Option<Tree>, name: string): string {
    if m.None? then ""
    else
      var i := FieldIndex(m.value, name, 0);
      if i < |m.value.fields| && m.value.fields[i].value.Text? then m.value.fields[i].value.slot.text.GetOr("") else ""
  }

  // ----- constants

  const CONST := "AConst"

  /** The payload of an A_Const: NULL, or the alternative its case selects. */
  function ConstantOf(t: Tree): L.Constant {
    if Number(t, "isnull") != 0 then L.NullValue
    else if Selected(t, "ival") then L.Integer(if Sub(t, "ival").Some? then Number(Sub(t, "ival").value, "ival") else 0)
    else if Selected(t, "fval") then L.Float(TextOf(Sub(t, "fval"), "fval"))
    else if Selected(t, "boolval") then
      L.Boolean(Sub(t, "boolval").Some? && Number(Sub(t, "boolval").value, "boolval") != 0)
    else if Selected(t, "sval") then L.Text(TextOf(Sub(t, "sval"), "sval"))
    else if Selected(t, "bsval") then L.BitString
    else L.NotSet
  }

  predicate IsConst(t: Tree) {
    t.kind == CONST
  }

  predicate IsLiteral(t: Tree) {
    IsConst(t) && L.Supported(ConstantOf(t))
  }

  // ----- strings and operators

  /** The string of a Node around one; a star and an empty string are none. */
  function StringOf(n: Option<Tree>): Option<string> {
    if n.None? || !N.Wraps(n.value, "String") || TextOf(Wrapped(n.value), "sval") == "" then None
    else Some(TextOf(Wrapped(n.value), "sval"))
  }

  /** The strings of a column reference or of an operator's name. */
  function Parts(items: seq<MessageSlot>): seq<Option<string>> {
    if items == [] then [] else [StringOf(items[0].child)] + Parts(items[1..])
  }

  function LastPart(parts: seq<Option<string>>): Option<string> {
    if parts == [] then None
    else if parts[|parts| - 1].Some? then parts[|parts| - 1]
    else LastPart(parts[..|parts| - 1])
  }

  const AEXPR_OP_ANY := 2
  const AEXPR_OP_ALL := 3
  const AEXPR_DISTINCT := 4
  const AEXPR_NOT_DISTINCT := 5
  const AEXPR_NULLIF := 6
  const AEXPR_IN := 7
  const AEXPR_LIKE := 8
  const AEXPR_ILIKE := 9
  const AEXPR_SIMILAR := 10
  const AEXPR_BETWEEN := 11
  const AEXPR_NOT_BETWEEN := 12
  const AEXPR_BETWEEN_SYM := 13
  const AEXPR_NOT_BETWEEN_SYM := 14

  /** The operator as it is reported: by the kind of the A_Expr and its name. */
  function OperatorOf(kind: int, name: seq<Option<string>>): Option<string> {
    if kind == AEXPR_IN then Some(if Some("<>") in name || Some("!=") in name then "NOT IN" else "IN")
    else if kind == AEXPR_LIKE then Some(if Some("!~~") in name then "NOT LIKE" else "LIKE")
    else if kind == AEXPR_ILIKE then Some(if Some("!~~*") in name then "NOT ILIKE" else "ILIKE")
    else if kind == AEXPR_SIMILAR then Some(if Some("!~") in name then "NOT SIMILAR TO" else "SIMILAR TO")
    else if kind == AEXPR_BETWEEN then Some("BETWEEN")
    else if kind == AEXPR_NOT_BETWEEN then Some("NOT BETWEEN")
    else if kind == AEXPR_BETWEEN_SYM then Some("BETWEEN SYMMETRIC")
    else if kind == AEXPR_NOT_BETWEEN_SYM then Some("NOT BETWEEN SYMMETRIC")
    else if kind == AEXPR_OP_ANY then Some("ANY")
    else if kind == AEXPR_OP_ALL then Some("ALL")
    else if kind == AEXPR_DISTINCT then Some("IS DISTINCT FROM")
    else if kind == AEXPR_NOT_DISTINCT then Some("IS NOT DISTINCT FROM")
    else if kind == AEXPR_NULLIF then Some("NULLIF")
    else LastPart(name)
  }

  function OperatorName(w: Tree): Option<string> {
    OperatorOf(Number(w, "kind"), Parts(SubMany(w, "name")))
  }

  // ----- the view

  /** The kinds whose children the walker visits as a list, with the field that holds it. */
  function ListField(kind: string): Option<string> {
    match kind
    case "BoolExpr" => Some("args")
    case "AArrayExpr" => Some("elements")
    case "RowExpr" => Some("args")
    case "List" => Some("items")
    case "FuncCall" => Some("args")
    case "CoalesceExpr" => Some("args")
    case "MinMaxExpr" => Some("args")
    case _ => None
  }

  function WrappingOf(kind: string): Option<L.Wrapping> {
    match kind
    case "TypeCast" => Some(L.TypeCast)
    case "CollateClause" => Some(L.Collate)
    case "RelabelType" => Some(L.Relabel)
    case "CoerceViaIo" => Some(L.CoerceViaIo)
    case "NullTest" => Some(L.NullTest)
    case "BooleanTest" => Some(L.BooleanTest)
    case _ => None
  }

  /** What the walker sees of a Node. */
  function Seen(t: Tree): L.Node
    decreases t, 3
  {
    L.Node(t.id, if IsNode(t) && Wrapped(t).Some? then Said(Wrapped(t).value) else L.Unvisited)
  }

  function Said(w: Tree): L.Expr
    decreases w, 2
  {
    if IsConst(w) then L.Const(w.id, ConstantOf(w))
    else if w.kind == "AExpr" then
      L.Operator(OperatorName(w), SeenMaybe(w, Sub(w, "lexpr")), SeenMaybe(w, Sub(w, "rexpr")))
    else if WrappingOf(w.kind).Some? then L.Wrapper(WrappingOf(w.kind).value, SeenMaybe(w, Sub(w, "arg")))
    else if w.kind == INDIRECTION then
      L.Indirection(SeenMaybe(w, Sub(w, "arg")), SeenEach(w, SubMany(w, "indirection"), 0))
    else if ListField(w.kind).Some? then L.Arguments(SeenEach(w, SubMany(w, ListField(w.kind).value), 0))
    else if w.kind == "SubLink" then
      L.SubLink(SeenMaybe(w, Sub(w, "testexpr")), SeenMaybe(w, Sub(w, "subselect")))
    else if w.kind == "SelectStmt" then L.Query(SelectOf(w))
    else if w.kind == "ColumnRef" then L.Column(Parts(SubMany(w, "fields")))
    else L.Unvisited
  }

  function SeenMaybe(w: Tree, c: Option<Tree>): (r: Option<L.Node>)
    requires c.Some? ==> c.value < w
    decreases w, 0, 0
  {
    if c.Some? then Some(Seen(c.value)) else None
  }

  function SeenEach(w: Tree, items: seq<MessageSlot>, j: nat): (r: seq<Option<L.Node>>)
    requires AreBelow(items, w) && j <= |items|
    decreases w, 0, |items| - j + 1
  {
    if j == |items| then [] else [SeenMaybe(w, items[j].child)] + SeenEach(w, items, j + 1)
  }

  function SelectOf(s: Tree): L.Select
    decreases s, 1
  {
    L.Select(SeenMaybe(s, Sub(s, "where_clause")),
             if Sub(s, "larg").Some? then Some(SelectOf(Sub(s, "larg").value)) else None,
             if Sub(s, "rarg").Some? then Some(SelectOf(Sub(s, "rarg").value)) else None)
  }

  /** The WHERE clause whose literals are numbered: that of a SELECT, an UPDATE or a
      DELETE, or of the SELECT that an INSERT takes its rows from. */
  function WhereClause(statement: Tree): Option<Tree> {
    var owner := WhereOwner(statement);
    if owner.Some? then Sub(owner.value, "where_clause") else None
  }

  /** The message that has the WHERE clause of a statement. */
  function WhereOwner(statement: Tree): Option<Tree> {
    if !IsNode(statement) || Wrapped(statement).None? then None
    else
      var s := Wrapped(statement).value;
      if s.kind == "SelectStmt" || s.kind == "UpdateStmt" || s.kind == "DeleteStmt" then Some(s)
      else if s.kind == "InsertStmt" && Sub(s, "select_stmt").Some?
              && N.Wraps(Sub(s, "select_stmt").value, "SelectStmt")
      then Wrapped(Sub(s, "select_stmt").value)
      else None
  }

  // ----- where the visited nodes are

  /** The visited node is what is seen of a message below this one. */
  ghost predicate StepOf(t: Tree, s: L.Step) {
    exists x: Tree :: x < t && Under(t, x) && s.node == Seen(x)
  }

  lemma StepHigher(t: Tree, c: Tree, s: L.Step)
    requires ChildOf(t, c) && StepOf(c, s)
    ensures StepOf(t, s)
  {
    var x: Tree :| x < c && Under(c, x) && s.node == Seen(x);
    ChildIsSmaller(t, c);
    ChildUnder(t, c);
    UnderChain(t, c, x);
  }

  lemma MaybeUnder(w: Tree, c: Option<Tree>, k: L.Context, s: L.Step)
    requires c.Some? ==> c.value < w && ChildOf(w, c.value)
    requires s in L.Maybe(SeenMaybe(w, c), k)
    ensures StepOf(w, s)
  {
    hide Seen, ChildOf, Under;
    ChildUnder(w, c.value);
    assert s.node == Seen(c.value);
  }

  lemma {:induction false} EachUnder(w: Tree, items: seq<MessageSlot>, j: nat, k: L.Context,
                                     s: L.Step)
    requires AreBelow(items, w) && j <= |items|
    requires s in L.Each(SeenEach(w, items, j), k)
    ensures StepOf(w, s)
    decreases |items| - j
  {
    hide StepOf, SeenMaybe;
    if j < |items| {
      var rest := SeenEach(w, items, j + 1);
      var all := SeenEach(w, items, j);
      assert all[0] == SeenMaybe(w, items[j].child) && all[1..] == rest;
      if s in L.Maybe(all[0], k) {
        MaybeUnder(w, items[j].child, k, s);
      } else {
        EachUnder(w, items, j + 1, k, s);
      }
    }
  }

  lemma {:induction false} WheresUnder(q: Tree, k: L.Context, s: L.Step)
    requires s in L.WhereSteps(SelectOf(q), k)
    ensures StepOf(q, s)
    decreases q
  {
    hide StepOf, SeenMaybe, Sub;
    var l, r := Sub(q, "larg"), Sub(q, "rarg");
    if s in L.Maybe(SeenMaybe(q, Sub(q, "where_clause")), k) {
      MaybeUnder(q, Sub(q, "where_clause"), k, s);
    } else if l.Some? && s in L.WhereSteps(SelectOf(l.value), k) {
      WheresUnder(l.value, k, s);
      StepHigher(q, l.value, s);
    } else {
      WheresUnder(r.value, k, s);
      StepHigher(q, r.value, s);
    }
  }

  lemma TwoUnder(w: Tree, a: Option<Tree>, ka: L.Context, b: Option<Tree>, kb: L.Context,
                 s: L.Step)
    requires (a.Some? ==> a.value < w && ChildOf(w, a.value)) && (b.Some? ==> b.value < w && ChildOf(w, b.value))
    requires s in L.Maybe(SeenMaybe(w, a), ka) + L.Maybe(SeenMaybe(w, b), kb)
    ensures StepOf(w, s)
  {
    hide StepOf, SeenMaybe;
    if s in L.Maybe(SeenMaybe(w, a), ka) {
      MaybeUnder(w, a, ka, s);
    } else {
      MaybeUnder(w, b, kb, s);
    }
  }

  lemma StepsUnder(w: Tree, k: L.Context, s: L.Step)
    requires s in L.Steps(Said(w), k)
    ensures StepOf(w, s)
  {
    hide StepOf, SeenMaybe, SeenEach, Sub, SubMany, L.Maybe, L.Each, L.WhereSteps, SelectOf, L.Beside, ConstantOf,
         Parts;
    var name := ListField(w.kind);
    match Said(w) {
      case Operator(o, left, right) =>
        TwoUnder(w, Sub(w, "lexpr"), L.Beside(k, o, right), Sub(w, "rexpr"), L.Beside(k, o, left), s);
      case Wrapper(_, _) => MaybeUnder(w, Sub(w, "arg"), k, s);
      case Indirection(base, subscripts) =>
        if s in L.Maybe(base, k) {
          MaybeUnder(w, Sub(w, "arg"), k, s);
        } else {
          EachUnder(w, SubMany(w, "indirection"), 0, k, s);
        }
      case Arguments(_) => EachUnder(w, SubMany(w, name.value), 0, k, s);
      case SubLink(_, _) => TwoUnder(w, Sub(w, "testexpr"), k, Sub(w, "subselect"), k, s);
      case Query(_) => WheresUnder(w, k, s);
      case Const(_, _) =>
      case Column(_) =>
      case Unvisited =>
    }
  }

  lemma WrappedChild(t: Tree)
    requires Wrapped(t).Some?
    ensures ChildOf(t, Wrapped(t).value)
  {
    assert HoldsChild(t.fields[0].value, Wrapped(t).value);
  }

  // ----- where the literals are

  /** A Node around a constant. */
  predicate Holds(n: Tree, node: nat, addr: nat, c: L.Constant) {
    && N.Wraps(n, CONST) && n.id == node
    && Wrapped(n).value.id == addr && ConstantOf(Wrapped(n).value) == c
  }

  /** Every WHERE literal is a supported constant below the clause, in the Node the
      walker reports. */
  lemma {:induction false} LiteralUnder(t: Tree, k: L.Context, l: L.Literal)
    requires l in L.Literals(Seen(t), k)
    ensures exists n: Tree :: Under(t, n) && Holds(n, l.info.node, l.addr, l.info.constant)
    ensures L.Supported(l.info.constant)
    decreases t, 1, 0
  {
    var n := Seen(t);
    if n.expr.Const? {
      assert Under(t, t);
      assert Holds(t, l.info.node, l.addr, l.info.constant);
    } else {
      SeenSteps(t, k);
      StepLiteralUnder(t, L.Steps(n.expr, k), 0, l);
    }
  }

  lemma SeenSteps(t: Tree, k: L.Context)
    ensures forall s | s in L.Steps(Seen(t).expr, k) :: StepOf(t, s)
  {
    forall s | s in L.Steps(Seen(t).expr, k)
      ensures StepOf(t, s)
    {
      if Wrapped(t).Some? {
        WrappedChild(t);
        StepsUnder(Wrapped(t).value, k, s);
        StepHigher(t, Wrapped(t).value, s);
      }
    }
  }

  lemma {:induction false} StepLiteralUnder(t: Tree, steps: seq<L.Step>, i: nat,
                                            l: L.Literal)
    requires i <= |steps| && forall s | s in steps :: s.node < Seen(t) && StepOf(t, s)
    requires l in L.StepLiterals(Seen(t), steps, i)
    ensures exists n: Tree :: Under(t, n) && Holds(n, l.info.node, l.addr, l.info.constant)
    ensures L.Supported(l.info.constant)
    decreases t, 0, |steps| - i
  {
    hide Seen, Holds, Under;
    var s := steps[i];
    if l in L.Literals(s.node, s.context) {
      var x: Tree :| x < t && Under(t, x) && s.node == Seen(x);
      LiteralUnder(x, s.context, l);
      var n: Tree :| Under(x, n) && Holds(n, l.info.node, l.addr, l.info.constant);
      UnderChain(t, x, n);
    } else {
      StepLiteralUnder(t, steps, i + 1, l);
    }
  }
}

/** Which constants of a tree are WHERE literals, in which order, and with which column
    and operator they are reported. */
module LiteralMeaning {
  import opened Wrappers
  import opened AstTree
  import opened OrdinalSearch
  import opened LiteralView
  import L = LiteralWalk

  // ----- reading fields

  /** A field is read by its name if it is there and no alternative that is not selected. */
  lemma SubsAreRead(t: Tree, i: nat)
    requires NamedOnce(t) && i < |t.fields|
    ensures var f := t.fields[i];
            && Sub(t, f.name) == (if f.active && f.value.Child? then f.value.one.child else None)
            && SubMany(t, f.name) == (if f.active && f.value.Children? then f.value.many else [])
            && (Selected(t, f.name) <==> f.active)
            && TextOf(Some(t), f.name)
            == if f.value.Text? && f.value.slot.text.Some? then f.value.slot.text.value else ""
    ensures forall name | (forall j | 0 <= j < |t.fields| :: t.fields[j].name != name) ::
              Sub(t, name) == None && SubMany(t, name) == [] && !Selected(t, name) && TextOf(Some(t), name) == ""
  {
    FieldFound(t, i, 0);
  }

  // ----- constants

  /** Nothing but this alternative of the payload is selected. */
  predicate Chooses(w: Tree, name: string) {
    forall other | other in {"ival", "fval", "boolval", "sval", "bsval"} :: Selected(w, other) <==> other == name
  }

  /** A constant is NULL, or the alternative selected of the integer, the float, the boolean
      and the string; a bit string is no literal, and neither is a constant without any. */
  lemma ConstantMeans(w: Tree)
    ensures Number(w, "isnull") != 0 ==> ConstantOf(w) == L.NullValue
    ensures Number(w, "isnull") == 0 ==>
              && (Chooses(w, "ival") ==> ConstantOf(w) == L.Integer(match Sub(w, "ival")
                                                                   case Some(x) => Number(x, "ival")
                                                                   case None => 0))
              && (Chooses(w, "fval") ==> ConstantOf(w) == L.Float(TextOf(Sub(w, "fval"), "fval")))
              && (Chooses(w, "sval") ==> ConstantOf(w) == L.Text(TextOf(Sub(w, "sval"), "sval")))
              && (Chooses(w, "boolval") ==> ConstantOf(w) == L.Boolean(match Sub(w, "boolval")
                                                                      case Some(x) => Number(x, "boolval") != 0
                                                                      case None => false))
    ensures IsLiteral(w)
       <==> && w.kind == "AConst"
            && (|| Number(w, "isnull") != 0 || Selected(w, "ival") || Selected(w, "fval")
                || Selected(w, "boolval") || Selected(w, "sval"))
    ensures TextOf(None, "sval") == ""
  {
    assert Chooses(w, "fval") ==> !Selected(w, "ival");
    assert Chooses(w, "boolval") ==> !Selected(w, "ival") && !Selected(w, "fval");
    assert Chooses(w, "sval") ==> !Selected(w, "ival") && !Selected(w, "fval") && !Selected(w, "boolval");
  }

  // ----- names

  /** The strings of a list of Nodes: a star and an empty string are none. */
  function Names(items: seq<MessageSlot>): seq<string> {
    if items == [] then []
    else
      var n := items[0].child;
      (if n.Some? && n.value.kind == "Node" && Wrapped(n.value).Some? && Wrapped(n.value).value.kind == "String"
          && TextOf(Wrapped(n.value), "sval") != ""
       then [TextOf(Wrapped(n.value), "sval")] else [])
      + Names(items[1..])
  }

  function Smaller(a: nat, b: nat): nat {
    if a < b then a else b
  }

  lemma {:induction false} FirstNames(items: seq<MessageSlot>, n: nat)
    ensures L.FirstParts(Parts(items), n) == Names(items)[..Smaller(n, |Names(items)|)]
    decreases |items|
  {
    if items != [] {
      hide Parts, Names, StringOf, L.FirstParts;
      FirstString(items);
      if n > 0 {
        FirstNames(items[1..], if StringOf(items[0].child).Some? then n - 1 else n);
      }
      Shorter(Parts(items), StringOf(items[0].child), Parts(items[1..]), n);
    }
  }

  lemma {:induction false} FirstString(items: seq<MessageSlot>)
    requires items != []
    ensures Parts(items) == [StringOf(items[0].child)] + Parts(items[1..])
    ensures Names(items) == (if StringOf(items[0].child).Some? then [StringOf(items[0].child).value] else [])
                            + Names(items[1..])
  {
  }

  lemma {:induction false} Shorter(parts: seq<Option<string>>, first: Option<string>, rest: seq<Option<string>>, n: nat)
    requires parts == [first] + rest
    ensures L.FirstParts(parts, n) == if n == 0 then []
                                      else if first.None? then L.FirstParts(rest, n)
                                      else [first.value] + L.FirstParts(rest, n - 1)
  {
    assert parts[1..] == rest;
  }

  lemma {:induction false} LastName(items: seq<MessageSlot>)
    ensures LastPart(Parts(items)) == if Names(items) == [] then None else Some(Names(items)[|Names(items)| - 1])
    decreases |items|
  {
    if items != [] {
      LastName(items[1..]);
      LastOfRest(StringOf(items[0].child), Parts(items[1..]));
    }
  }

  lemma {:induction false} LastOfRest(first: Option<string>, rest: seq<Option<string>>)
    ensures LastPart([first] + rest) == if LastPart(rest).Some? then LastPart(rest) else first
    decreases |rest|
  {
    var all := [first] + rest;
    if rest == [] {
      assert all[..0] == [];
    } else {
      assert all[..|all| - 1] == [first] + rest[..|rest| - 1];
      LastOfRest(first, rest[..|rest| - 1]);
    }
  }

  lemma {:induction false} IsPart(items: seq<MessageSlot>, s: string)
    ensures Some(s) in Parts(items) <==> s in Names(items)
    decreases |items|
  {
    if items != [] {
      IsPart(items[1..], s);
    }
  }

  /** The operator reported for an A_Expr, by the number of its kind: negated forms are told
      by the operator's name, and an ordinary operator is the last part of its name. */
  lemma OperatorMeans(w: Tree)
    ensures var kind, names, operator := Number(w, "kind"), Names(SubMany(w, "name")), OperatorName(w);
            && (kind == 7 ==> operator == Some(if "<>" in names || "!=" in names then "NOT IN" else "IN"))
            && (kind == 8 ==> operator == Some(if "!~~" in names then "NOT LIKE" else "LIKE"))
            && (kind == 9 ==> operator == Some(if "!~~*" in names then "NOT ILIKE" else "ILIKE"))
            && (kind == 10 ==> operator == Some(if "!~" in names then "NOT SIMILAR TO" else "SIMILAR TO"))
            && (kind == 11 ==> operator == Some("BETWEEN"))
            && (kind == 12 ==> operator == Some("NOT BETWEEN"))
            && (kind == 13 ==> operator == Some("BETWEEN SYMMETRIC"))
            && (kind == 14 ==> operator == Some("NOT BETWEEN SYMMETRIC"))
            && (kind == 2 ==> operator == Some("ANY"))
            && (kind == 3 ==> operator == Some("ALL"))
            && (kind == 4 ==> operator == Some("IS DISTINCT FROM"))
            && (kind == 5 ==> operator == Some("IS NOT DISTINCT FROM"))
            && (kind == 6 ==> operator == Some("NULLIF"))
            && (kind < 2 || 14 < kind ==> operator == if names == [] then None else Some(names[|names| - 1]))
  {
    var items := SubMany(w, "name");
    IsPart(items, "<>");
    IsPart(items, "!=");
    IsPart(items, "!~~");
    IsPart(items, "!~~*");
    IsPart(items, "!~");
    LastName(items);
    hide Parts, Names, LastPart;
  }

  // ----- columns

  /** Of the first four names of a column reference the last is the column and the one in
      front of it the table. */
  function OfNames(names: seq<string>): Option<(Option<string>, string)> {
    var k := Smaller(4, |names|);
    if k == 0 then None else Some((if k == 1 then None else Some(names[k - 2]), names[k - 1]))
  }

  /** The column a Node refers to, seen through casts, collations and indirections. */
  function Column(n: Tree): Option<(Option<string>, string)> {
    if n.kind != "Node" || Wrapped(n).None? then None
    else
      var w := Wrapped(n).value;
      if w.kind == "ColumnRef" then
        OfNames(Names(SubMany(w, "fields")))
      else if w.kind in {"TypeCast", "CollateClause", "AIndirection"} && Sub(w, "arg").Some? then
        Column(Sub(w, "arg").value)
      else None
  }

  lemma {:induction false} ColumnMeans(n: Tree)
    ensures L.ColumnOf(Some(Seen(n))) == Column(n)
    decreases n
  {
    hide Sub, SubMany, Parts, Names, Seen, Said, Column, L.ColumnOf;
    if n.kind == "Node" && Wrapped(n).Some? {
      SeenIsSaid(n);
      var w := Wrapped(n).value;
      var arg := Sub(w, "arg");
      if arg.Some? {
        ColumnMeans(arg.value);
      }
      ColumnBelow(n, w, arg);
      SaidOf(w);
      if w.kind == "ColumnRef" {
        ColumnHere(Seen(n), SubMany(w, "fields"));
      } else if w.kind in {"AIndirection", "TypeCast", "CollateClause"} {
        Shows(Seen(n), SeenMaybe(w, arg));
      } else {
        HidesColumn(Seen(n));
      }
    } else {
      NoNode(n);
    }
  }

  lemma {:induction false} NoNode(n: Tree)
    requires n.kind != "Node" || Wrapped(n).None?
    ensures L.ColumnOf(Some(Seen(n))) == None && Column(n) == None
  {
  }

  lemma {:induction false} ColumnBelow(n: Tree, w: Tree, arg: Option<Tree>)
    requires n.kind == "Node" && Wrapped(n) == Some(w) && arg == Sub(w, "arg")
    ensures Column(n) == if w.kind == "ColumnRef" then OfNames(Names(SubMany(w, "fields")))
                         else if w.kind in {"TypeCast", "CollateClause", "AIndirection"} && arg.Some?
                         then Column(arg.value) else None
  {
  }

  lemma SaidOf(w: Tree)
    ensures w.kind == "ColumnRef" ==> Said(w) == L.Column(Parts(SubMany(w, "fields")))
    ensures w.kind == "AIndirection" ==>
              Said(w) == L.Indirection(SeenMaybe(w, Sub(w, "arg")), SeenEach(w, SubMany(w, "indirection"), 0))
    ensures w.kind == "TypeCast" ==> Said(w) == L.Wrapper(L.TypeCast, SeenMaybe(w, Sub(w, "arg")))
    ensures w.kind == "CollateClause" ==> Said(w) == L.Wrapper(L.Collate, SeenMaybe(w, Sub(w, "arg")))
    ensures w.kind !in {"ColumnRef", "AIndirection", "TypeCast", "CollateClause"} ==>
              && !Said(w).Column? && !Said(w).Indirection?
              && (Said(w).Wrapper? ==> Said(w).wrapping !in {L.TypeCast, L.Collate})
  {
    hide Sub, SubMany, Parts, OperatorName, ConstantOf, SelectOf, SeenEach, SeenMaybe;
  }

  lemma {:induction false} ColumnHere(n: L.Node, items: seq<MessageSlot>)
    requires n.expr.Column? && n.expr.parts == Parts(items)
    ensures L.ColumnOf(Some(n)) == OfNames(Names(items))
  {
    FirstNames(items, 4);
    ColumnOfParts(n);
  }

  lemma {:induction false} ColumnOfParts(n: L.Node)
    requires n.expr.Column?
    ensures L.ColumnOf(Some(n)) == OfNames(L.FirstParts(n.expr.parts, 4))
  {
  }

  lemma {:induction false} Shows(n: L.Node, arg: Option<L.Node>)
    requires || (n.expr.Indirection? && n.expr.base == arg)
             || (n.expr.Wrapper? && n.expr.wrapping in {L.TypeCast, L.Collate} && n.expr.arg == arg)
    ensures L.ColumnOf(Some(n)) == if arg.Some? then L.ColumnOf(Some(arg.value)) else None
  {
  }

  lemma {:induction false} HidesColumn(n: L.Node)
    requires !n.expr.Column? && !n.expr.Indirection?
    requires n.expr.Wrapper? ==> n.expr.wrapping !in {L.TypeCast, L.Collate}
    ensures L.ColumnOf(Some(n)) == None
  {
  }

  lemma SeenIsSaid(n: Tree)
    requires n.kind == "Node" && Wrapped(n).Some?
    ensures Seen(n) == L.Node(n.id, Said(Wrapped(n).value))
  {
  }

  /** The context of one operand: the operator, and the column the other operand refers to;
      an operand without a column leaves the column that was there. */
  function Compared(w: Tree, c: L.Context, other: Option<Tree>): L.Context {
    var column := if other.Some? then Column(other.value) else None;
    if column.Some? then L.Context(column.value.0, Some(column.value.1), OperatorName(w))
    else L.Context(c.table, c.column, OperatorName(w))
  }

  // ----- the literals in order

  function Below(n: Option<Tree>, c: L.Context): seq<L.Literal> {
    if n.Some? then L.Literals(Seen(n.value), c) else []
  }

  function BelowEach(items: seq<MessageSlot>, c: L.Context): seq<L.Literal> {
    if items == [] then [] else Below(items[0].child, c) + BelowEach(items[1..], c)
  }

  /** The WHERE clause of a SELECT comes before those of its left and its right operand. */
  function BelowWheres(s: Tree, c: L.Context): seq<L.Literal>
    decreases s
  {
    Below(Sub(s, "where_clause"), c)
    + (match Sub(s, "larg") case Some(left) => BelowWheres(left, c) case None => [])
    + (match Sub(s, "rarg") case Some(right) => BelowWheres(right, c) case None => [])
  }

  lemma SeenChild(t: Tree, c: L.Context, a: Option<Tree>, k: L.Context)
    requires Wrapped(t).Some? && IsNode(t) && (a.Some? ==> a.value < Wrapped(t).value)
    ensures L.Reached(SeenMaybe(Wrapped(t).value, a), k) == Below(a, k)
    ensures a.Some? ==> SeenMaybe(Wrapped(t).value, a) == Some(Seen(a.value))
  {
  }

  /** The operands of an A_Expr, the left one first, each beside the other. */
  lemma ComparisonMeans(t: Tree, c: L.Context)
    requires t.kind == "Node" && Wrapped(t).Some? && Wrapped(t).value.kind == "AExpr"
    ensures var w := Wrapped(t).value;
            L.Literals(Seen(t), c) == Below(Sub(w, "lexpr"), Compared(w, c, Sub(w, "rexpr")))
                                      + Below(Sub(w, "rexpr"), Compared(w, c, Sub(w, "lexpr")))
  {
    var w, n := Wrapped(t).value, Seen(t);
    var left, right := Sub(w, "lexpr"), Sub(w, "rexpr");
    BesideMeans(w, c, left);
    BesideMeans(w, c, right);
    SeenIsSaid(t);
    hide Compared, L.Beside, OperatorName, L.Literals, Sub;
    assert Said(w) == L.Operator(OperatorName(w), SeenMaybe(w, left), SeenMaybe(w, right));
    TwoMean(n, c);
  }

  lemma {:induction false} BesideMeans(w: Tree, c: L.Context, other: Option<Tree>)
    requires other.Some? ==> other.value < w
    ensures L.Beside(c, OperatorName(w), SeenMaybe(w, other)) == Compared(w, c, other)
  {
    if other.Some? {
      ColumnMeans(other.value);
    }
  }

  lemma TwoMean(n: L.Node, c: L.Context)
    requires n.expr.Operator?
    ensures L.Literals(n, c) == L.Reached(n.expr.left, L.Beside(c, n.expr.name, n.expr.right))
                                + L.Reached(n.expr.right, L.Beside(c, n.expr.name, n.expr.left))
  {
    L.TwoSteps(n, n.expr.left, L.Beside(c, n.expr.name, n.expr.right),
               n.expr.right, L.Beside(c, n.expr.name, n.expr.left));
  }

  /** Casts and tests have one argument. */
  lemma ArgumentMeans(t: Tree, c: L.Context)
    requires t.kind == "Node" && Wrapped(t).Some?
    requires Wrapped(t).value.kind in
             {"TypeCast", "CollateClause", "RelabelType", "CoerceViaIo", "NullTest", "BooleanTest"}
    ensures L.Literals(Seen(t), c) == Below(Sub(Wrapped(t).value, "arg"), c)
  {
    var w, n := Wrapped(t).value, Seen(t);
    SeenIsSaid(t);
    hide L.Literals, Sub;
    assert Said(w) == L.Wrapper(WrappingOf(w.kind).value, SeenMaybe(w, Sub(w, "arg")));
    OneMeans(n, c);
  }

  lemma OneMeans(n: L.Node, c: L.Context)
    requires n.expr.Wrapper?
    ensures L.Literals(n, c) == L.Reached(n.expr.arg, c)
  {
    L.OneStep(n, n.expr.arg, c);
  }

  /** An indirection has its argument and then its subscripts. */
  lemma IndirectionMeans(t: Tree, c: L.Context)
    requires t.kind == "Node" && Wrapped(t).Some? && Wrapped(t).value.kind == "AIndirection"
    ensures var w := Wrapped(t).value;
            L.Literals(Seen(t), c) == Below(Sub(w, "arg"), c) + BelowEach(SubMany(w, "indirection"), c)
  {
    var w, n := Wrapped(t).value, Seen(t);
    var base, items := SeenMaybe(w, Sub(w, "arg")), SeenEach(w, SubMany(w, "indirection"), 0);
    SeenIsSaid(t);
    assert Said(w) == L.Indirection(base, items);
    hide L.Literals, Sub, SubMany, Said, Seen;
    SubscriptsMean(n, c);
    EachMeans(n, w, SubMany(w, "indirection"), 0, c);
    assert SubMany(w, "indirection")[0..] == SubMany(w, "indirection");
  }

  lemma SubscriptsMean(n: L.Node, c: L.Context)
    requires n.expr.Indirection?
    ensures forall s | s in L.Each(n.expr.subscripts, c) :: s.node < n
    ensures L.Literals(n, c) == L.Reached(n.expr.base, c) + L.StepLiterals(n, L.Each(n.expr.subscripts, c), 0)
  {
    L.StepsJoin(n, L.Maybe(n.expr.base, c), L.Each(n.expr.subscripts, c), 0);
    L.OneStep(n, n.expr.base, c);
  }

  lemma {:induction false} EachMeans(n: L.Node, w: Tree, items: seq<MessageSlot>, j: nat, c: L.Context)
    requires AreBelow(items, w) && j <= |items| && forall s | s in L.Each(SeenEach(w, items, j), c) :: s.node < n
    ensures L.StepLiterals(n, L.Each(SeenEach(w, items, j), c), 0) == BelowEach(items[j..], c)
    decreases |items| - j
  {
    if j < |items| {
      var first, rest := SeenMaybe(w, items[j].child), SeenEach(w, items, j + 1);
      var all := SeenEach(w, items, j);
      assert all[0] == first && all[1..] == rest;
      assert L.Each(all, c) == L.Maybe(first, c) + L.Each(rest, c);
      EachMeans(n, w, items, j + 1, c);
      L.StepsJoin(n, L.Maybe(first, c), L.Each(rest, c), 0);
      assert first.Some? ==> L.Step(first.value, c) in L.Each(all, c);
      L.OneStep(n, first, c);
      assert items[j..][1..] == items[j + 1..];
    }
  }

  /** Lists, Boolean expressions, arrays, rows and calls have their elements in order. */
  lemma ListMeans(t: Tree, c: L.Context)
    requires t.kind == "Node" && Wrapped(t).Some?
    ensures var w := Wrapped(t).value;
            && (w.kind in {"BoolExpr", "RowExpr", "FuncCall", "CoalesceExpr", "MinMaxExpr"} ==>
                  L.Literals(Seen(t), c) == BelowEach(SubMany(w, "args"), c))
            && (w.kind == "AArrayExpr" ==> L.Literals(Seen(t), c) == BelowEach(SubMany(w, "elements"), c))
            && (w.kind == "List" ==> L.Literals(Seen(t), c) == BelowEach(SubMany(w, "items"), c))
  {
    var w, n := Wrapped(t).value, Seen(t);
    if ListField(w.kind).Some? {
      var items := SubMany(w, ListField(w.kind).value);
      SeenIsSaid(t);
      assert Said(w) == L.Arguments(SeenEach(w, items, 0));
      hide Said, Seen, SubMany;
      ArgumentsMean(n, c);
      EachMeans(n, w, items, 0, c);
      assert items[0..] == items;
    }
  }

  lemma ArgumentsMean(n: L.Node, c: L.Context)
    requires n.expr.Arguments?
    ensures forall s | s in L.Each(n.expr.args, c) :: s.node < n
    ensures L.Literals(n, c) == L.StepLiterals(n, L.Each(n.expr.args, c), 0)
  {
    assert L.Steps(n.expr, c) == L.Each(n.expr.args, c);
  }

  /** A sublink has its test expression and then its subselect. */
  lemma SubLinkMeans(t: Tree, c: L.Context)
    requires t.kind == "Node" && Wrapped(t).Some? && Wrapped(t).value.kind == "SubLink"
    ensures var w := Wrapped(t).value;
            L.Literals(Seen(t), c) == Below(Sub(w, "testexpr"), c) + Below(Sub(w, "subselect"), c)
  {
    var w, n := Wrapped(t).value, Seen(t);
    SeenIsSaid(t);
    hide L.Literals, Sub;
    assert Said(w) == L.SubLink(SeenMaybe(w, Sub(w, "testexpr")), SeenMaybe(w, Sub(w, "subselect")));
    LinkMeans(n, c);
  }

  lemma LinkMeans(n: L.Node, c: L.Context)
    requires n.expr.SubLink?
    ensures L.Literals(n, c) == L.Reached(n.expr.test, c) + L.Reached(n.expr.subselect, c)
  {
    L.TwoSteps(n, n.expr.test, c, n.expr.subselect, c);
  }

  /** A subquery has the literals of its WHERE clauses, operands included. */
  lemma QueryMeans(t: Tree, c: L.Context)
    requires t.kind == "Node" && Wrapped(t).Some? && Wrapped(t).value.kind == "SelectStmt"
    ensures L.Literals(Seen(t), c) == BelowWheres(Wrapped(t).value, c)
  {
    var w, n := Wrapped(t).value, Seen(t);
    SeenIsSaid(t);
    assert Said(w) == L.Query(SelectOf(w));
    hide Said, Seen, SelectOf;
    StepsOfQuery(n, c);
    WheresMean(n, w, c);
  }

  lemma StepsOfQuery(n: L.Node, c: L.Context)
    requires n.expr.Query?
    ensures forall s | s in L.WhereSteps(n.expr.select, c) :: s.node < n
    ensures L.Literals(n, c) == L.StepLiterals(n, L.WhereSteps(n.expr.select, c), 0)
  {
    assert L.Steps(n.expr, c) == L.WhereSteps(n.expr.select, c);
  }

  lemma {:induction false} WheresMean(n: L.Node, w: Tree, c: L.Context)
    requires forall s | s in L.WhereSteps(SelectOf(w), c) :: s.node < n
    ensures L.StepLiterals(n, L.WhereSteps(SelectOf(w), c), 0) == BelowWheres(w, c)
    decreases w
  {
    hide L.StepLiterals, L.Literals, L.Maybe, Sub, Seen;
    var here, left, right := SeenMaybe(w, Sub(w, "where_clause")), Sub(w, "larg"), Sub(w, "rarg");
    var a := L.Maybe(here, c);
    var l := if left.Some? then L.WhereSteps(SelectOf(left.value), c) else [];
    var r := if right.Some? then L.WhereSteps(SelectOf(right.value), c) else [];
    assert L.WhereSteps(SelectOf(w), c) == a + l + r;
    L.StepsJoin(n, a, l, 0);
    L.StepsJoin(n, a + l, r, 0);
    WhereStep(n, w, c);
    NoSteps(n);
    if left.Some? {
      WheresMean(n, left.value, c);
    }
    if right.Some? {
      WheresMean(n, right.value, c);
    }
  }

  lemma NoSteps(n: L.Node)
    ensures L.StepLiterals(n, [], 0) == []
  {
  }

  lemma WhereStep(n: L.Node, w: Tree, c: L.Context)
    requires forall s | s in L.Maybe(SeenMaybe(w, Sub(w, "where_clause")), c) :: s.node < n
    ensures L.StepLiterals(n, L.Maybe(SeenMaybe(w, Sub(w, "where_clause")), c), 0) == Below(Sub(w, "where_clause"), c)
  {
    var here := SeenMaybe(w, Sub(w, "where_clause"));
    assert here.Some? ==> L.Step(here.value, c) in L.Maybe(here, c);
    L.OneStep(n, here, c);
  }

  /** A literal reports the constant, the Node around it and the context; every other
      message has no literals. */
  lemma LeafMeans(t: Tree, c: L.Context)
    ensures t.kind != "Node" || Wrapped(t).None? ==> L.Literals(Seen(t), c) == []
    ensures t.kind == "Node" && Wrapped(t).Some? ==>
              var w := Wrapped(t).value;
              && (w.kind == "AConst" ==>
                    L.Literals(Seen(t), c)
                    == if L.Supported(ConstantOf(w)) then [Hit(w.id, L.LiteralInfo(t.id, ConstantOf(w), c))] else [])
              && (w.kind !in {"AConst", "AExpr", "TypeCast", "CollateClause", "RelabelType", "CoerceViaIo", "NullTest",
                              "BooleanTest", "AIndirection", "BoolExpr", "RowExpr", "FuncCall", "CoalesceExpr",
                              "MinMaxExpr", "AArrayExpr", "List", "SubLink", "SelectStmt"} ==>
                    L.Literals(Seen(t), c) == [])
  {
    NoSteps(Seen(t));
    assert L.Literals(Seen(t), c) == if Seen(t).expr.Const? then L.Recordable(Seen(t), c)
                                     else L.StepLiterals(Seen(t), L.Steps(Seen(t).expr, c), 0);
  }

  // ----- where a statement has its WHERE clause

  /** SELECT, UPDATE and DELETE have one themselves, and INSERT that of its SELECT. */
  lemma WhereClauseMeans(statement: Tree)
    ensures WhereClause(statement)
         == if statement.kind != "Node" || Wrapped(statement).None? then None
            else
              var s := Wrapped(statement).value;
              if s.kind in {"SelectStmt", "UpdateStmt", "DeleteStmt"} then Sub(s, "where_clause")
              else if s.kind != "InsertStmt" then None
              else
                match Sub(s, "select_stmt")
                case None => None
                case Some(x) =>
                  if x.kind == "Node" && Wrapped(x).Some? && Wrapped(x).value.kind == "SelectStmt"
                  then Sub(Wrapped(x).value, "where_clause") else None
  {
  }
}

/** Literals of WHERE clauses: their numbering with column contexts, and the lens
    that reads and writes them. */
module LiteralWalk {
  import opened Wrappers
  import opened OrdinalSearch

  // ----- expressions

  /** A constant's payload.  Bit strings and unset payloads are not literals. */
  datatype Constant =
    | NullValue
    | Text(text: string)
    | Integer(number: int)
    | Float(digits: string)
    | Boolean(flag: bool)
    | BitString
    | NotSet

  /** Type casts and collations let a column reference show through, the others do not. */
  datatype Wrapping = TypeCast | Collate | Relabel | CoerceViaIo | NullTest | BooleanTest

  /** A Node with its address and what the literal walker sees of it. */
  datatype Node = Node(id: nat, expr: Expr)

  datatype Expr =
    | Const(cid: nat, constant: Constant)
    | Operator(name: Option<string>, left: Option<Node>, right: Option<Node>)
    | Wrapper(wrapping: Wrapping, arg: Option<Node>)
    | Indirection(base: Option<Node>, subscripts: seq<Option<Node>>)
    | Arguments(args: seq<Option<Node>>)
    | SubLink(test: Option<Node>, subselect: Option<Node>)
    | Query(select: Select)
    | Column(parts: seq<Option<string>>)
    | Unvisited

  datatype Select = Select(whereClause: Option<Node>, larg: Option<Select>, rarg: Option<Select>)

  predicate Supported(c: Constant) {
    c != BitString && c != NotSet
  }

  // ----- column contexts

  datatype Context = Context(table: Option<string>, column: Option<string>, operator: Option<string>)

  const BLANK := Context(None, None, None)

  /** The first four string parts of a column reference. */
  function FirstParts(parts: seq<Option<string>>, n: nat): (r: seq<string>)
    ensures |r| <= n
    decreases |parts|
  {
    if parts == [] || n == 0 then []
    else if parts[0].None? then FirstParts(parts[1..], n)
    else [parts[0].value] + FirstParts(parts[1..], n - 1)
  }

  /** The table and column a node refers to, seen through casts, collations and
      indirections. */
  function ColumnOf(n: Option<Node>): Option<(Option<string>, string)>
    decreases n
  {
    match n
    case None => None
    case Some(node) =>
      match node.expr
      case Column(parts) =>
        var p := FirstParts(parts, 4);
        if p == [] then None
        else Some((if |p| >= 2 then Some(p[|p| - 2]) else None, p[|p| - 1]))
      case Wrapper(w, arg) => if w == TypeCast || w == Collate then ColumnOf(arg) else None
      case Indirection(base, _) => ColumnOf(base)
      case _ => None
  }

  /** The context of one operand: the operator, and the column on the other side. */
  function Beside(c: Context, name: Option<string>, other: Option<Node>): Context {
    var column := ColumnOf(other);
    if column.Some? then Context(column.value.0, Some(column.value.1), name) else c.(operator := name)
  }

  // ----- the reference enumeration

  datatype Step = Step(node: Node, context: Context)

  function Maybe(n: Option<Node>, c: Context): (r: seq<Step>)
    ensures forall s | s in r :: n == Some(s.node)
  {
    if n.Some? then [Step(n.value, c)] else []
  }

  function Each(items: seq<Option<Node>>, c: Context): (r: seq<Step>)
    ensures forall s | s in r :: Some(s.node) in items
  {
    if items == [] then [] else Maybe(items[0], c) + Each(items[1..], c)
  }

  function WhereSteps(s: Select, c: Context): (r: seq<Step>)
    ensures forall x | x in r :: x.node < s
  {
    Maybe(s.whereClause, c)
    + (if s.larg.Some? then WhereSteps(s.larg.value, c) else [])
    + (if s.rarg.Some? then WhereSteps(s.rarg.value, c) else [])
  }

  /** The nodes visited directly below an expression, in order, with their contexts. */
  function Steps(e: Expr, c: Context): (r: seq<Step>)
    ensures forall s | s in r :: s.node < e
  {
    match e
    case Operator(name, left, right) => Maybe(left, Beside(c, name, right)) + Maybe(right, Beside(c, name, left))
    case Wrapper(_, arg) => Maybe(arg, c)
    case Indirection(base, subscripts) => Maybe(base, c) + Each(subscripts, c)
    case Arguments(args) => Each(args, c)
    case SubLink(test, subselect) => Maybe(test, c) + Maybe(subselect, c)
    case Query(select) => WhereSteps(select, c)
    case _ => []
  }

  /** A literal's constant, the Node around it, and the column it is compared with. */
  datatype LiteralInfo = LiteralInfo(node: nat, constant: Constant, context: Context)

  type Literal = Hit<LiteralInfo>

  function Recordable(n: Node, c: Context): seq<Literal> {
    if n.expr.Const? && Supported(n.expr.constant)
    then [Hit(n.expr.cid, LiteralInfo(n.id, n.expr.constant, c))] else []
  }

  function Literals(n: Node, c: Context): seq<Literal>
    decreases n, 1, 0
  {
    if n.expr.Const? then Recordable(n, c) else StepLiterals(n, Steps(n.expr, c), 0)
  }

  function StepLiterals(n: Node, steps: seq<Step>, i: nat): seq<Literal>
    requires i <= |steps| && forall s | s in steps :: s.node < n
    decreases n, 0, |steps| - i
  {
    if i == |steps| then [] else Literals(steps[i].node, steps[i].context) + StepLiterals(n, steps, i + 1)
  }

  lemma {:induction false} StepsJoin(n: Node, a: seq<Step>, b: seq<Step>, i: nat)
    requires i <= |a| && forall s | s in a + b :: s.node < n
    ensures StepLiterals(n, a + b, i) == StepLiterals(n, a, i) + StepLiterals(n, b, 0)
    decreases |a| - i
  {
    if i == |a| {
      StepsTail(n, a, b, 0);
    } else {
      assert a[i] in a + b && (a + b)[i] == a[i];
      StepsJoin(n, a, b, i + 1);
    }
  }

  lemma {:induction false} StepsTail(n: Node, a: seq<Step>, b: seq<Step>, j: nat)
    requires j <= |b| && forall s | s in a + b :: s.node < n
    ensures StepLiterals(n, a + b, |a| + j) == StepLiterals(n, b, j)
    decreases |b| - j
  {
    if j < |b| {
      assert (a + b)[|a| + j] == b[j];
      StepsTail(n, a, b, j + 1);
    }
  }

  // ----- the walker

  type LiteralSearch = Search<LiteralInfo>

  predicate Found(search: LiteralSearch)
    reads search
  {
    search.mode.wantTarget && search.target.Some?
  }

  /** Numbers the literals of an expression. */
  method Walk(n: Node, c: Context, search: LiteralSearch)
    requires search.mode.matchAddr.None?
    modifies search
    ensures search.State() == Run(search.mode, old(search.State()), Literals(n, c))
    decreases n, 1
  {
    if Found(search) {
      return;
    }
    if n.expr.Const? {
      if Supported(n.expr.constant) {
        var literal := Hit(n.expr.cid, LiteralInfo(n.id, n.expr.constant, c));
        RunOne(search.mode, search.State(), literal);
        search.Record(literal);
      }
    } else {
      WalkBelow(n, c, search);
    }
  }

  lemma RunNothing(m: Mode, p: Progress<LiteralInfo>, n: Node)
    ensures Run(m, p, []) == p && StepLiterals(n, [], 0) == []
  {
  }

  method WalkBelow(n: Node, c: Context, search: LiteralSearch)
    requires search.mode.matchAddr.None? && !n.expr.Const?
    modifies search
    ensures search.State() == Run(search.mode, old(search.State()), StepLiterals(n, Steps(n.expr, c), 0))
    decreases n, 0, 1
  {
    hide Run, StepLiterals, Beside;
    RunNothing(search.mode, search.State(), n);
    match n.expr {
      case Operator(name, left, right) => WalkTwo(n, left, Beside(c, name, right), right, Beside(c, name, left),
                                                  search);
      case Wrapper(_, arg) =>
        TwoSteps(n, arg, c, None, c);
        assert Maybe(arg, c) + Maybe(None, c) == Maybe(arg, c);
        WalkTwo(n, arg, c, None, c, search);
      case SubLink(test, subselect) => WalkTwo(n, test, c, subselect, c, search);
      case Arguments(args) => WalkEach(n, args, c, search);
      case Indirection(base, subscripts) => WalkIndirection(n, base, subscripts, c, search);
      case Query(select) => WalkSelect(n, select, c, search);
      case Column(_) =>
      case Unvisited =>
    }
  }

  method WalkMaybe(ghost n: Node, a: Option<Node>, c: Context, search: LiteralSearch)
    requires search.mode.matchAddr.None? && (a.Some? ==> a.value < n)
    modifies search
    ensures search.State() == Run(search.mode, old(search.State()), Reached(a, c))
    decreases n, 0, 0, 0
  {
    match a {
      case None =>
      case Some(child) => Walk(child, c, search);
    }
  }

  method WalkTwo(ghost n: Node, a: Option<Node>, ca: Context, b: Option<Node>, cb: Context, search: LiteralSearch)
    requires search.mode.matchAddr.None?
    requires (a.Some? ==> a.value < n) && (b.Some? ==> b.value < n)
    modifies search
    ensures search.State() == Run(search.mode, old(search.State()), StepLiterals(n, Maybe(a, ca) + Maybe(b, cb), 0))
    decreases n, 0, 0, 1
  {
    ghost var start := search.State();
    TwoSteps(n, a, ca, b, cb);
    hide StepLiterals, Run, Maybe;
    WalkMaybe(n, a, ca, search);
    WalkMaybe(n, b, cb, search);
    RunJoin(search.mode, start, Reached(a, ca), Reached(b, cb));
  }

  method WalkIndirection(ghost n: Node, base: Option<Node>, subscripts: seq<Option<Node>>, c: Context,
                         search: LiteralSearch)
    requires search.mode.matchAddr.None? && (base.Some? ==> base.value < n) && EachBelow(subscripts, n)
    modifies search
    ensures forall s | s in Maybe(base, c) + Each(subscripts, c) :: s.node < n
    ensures search.State()
         == Run(search.mode, old(search.State()), StepLiterals(n, Maybe(base, c) + Each(subscripts, c), 0))
    decreases n, 0, 0, 2
  {
    ghost var start := search.State();
    StepsJoin(n, Maybe(base, c), Each(subscripts, c), 0);
    OneStep(n, base, c);
    hide StepLiterals, Run, Maybe, Each;
    WalkMaybe(n, base, c, search);
    WalkEach(n, subscripts, c, search);
    RunJoin(search.mode, start, Reached(base, c), StepLiterals(n, Each(subscripts, c), 0));
  }

  function Reached(a: Option<Node>, c: Context): seq<Literal> {
    if a.Some? then Literals(a.value, c) else []
  }

  ghost predicate EachBelow(items: seq<Option<Node>>, n: Node) {
    forall i | 0 <= i < |items| && items[i].Some? :: items[i].value < n
  }

  lemma TwoSteps(n: Node, a: Option<Node>, ca: Context, b: Option<Node>, cb: Context)
    requires (a.Some? ==> a.value < n) && (b.Some? ==> b.value < n)
    ensures StepLiterals(n, Maybe(a, ca) + Maybe(b, cb), 0) == Reached(a, ca) + Reached(b, cb)
  {
    StepsJoin(n, Maybe(a, ca), Maybe(b, cb), 0);
    OneStep(n, a, ca);
    OneStep(n, b, cb);
  }

  lemma EachStep(n: Node, items: seq<Option<Node>>, c: Context, i: nat)
    requires i < |items| && EachBelow(items, n)
    ensures forall s | s in Each(items[i..], c) :: s.node < n
    ensures forall s | s in Each(items[i + 1..], c) :: s.node < n
    ensures StepLiterals(n, Each(items[i..], c), 0)
         == Reached(items[i], c) + StepLiterals(n, Each(items[i + 1..], c), 0)
  {
    assert items[i..][1..] == items[i + 1..];
    StepsJoin(n, Maybe(items[i], c), Each(items[i + 1..], c), 0);
    OneStep(n, items[i], c);
  }

  lemma OneStep(n: Node, a: Option<Node>, c: Context)
    requires a.Some? ==> a.value < n
    ensures StepLiterals(n, Maybe(a, c), 0) == Reached(a, c)
  {
    if a.Some? {
      assert StepLiterals(n, Maybe(a, c), 1) == [];
    }
  }

  lemma StepsBelow(items: seq<Option<Node>>, n: Node, c: Context)
    requires EachBelow(items, n)
    ensures forall s | s in Each(items, c) :: s.node < n
  {
  }

  method WalkEach(ghost n: Node, items: seq<Option<Node>>, c: Context, search: LiteralSearch)
    requires search.mode.matchAddr.None? && EachBelow(items, n)
    modifies search
    ensures forall s | s in Each(items, c) :: s.node < n
    ensures search.State() == Run(search.mode, old(search.State()), StepLiterals(n, Each(items, c), 0))
    decreases n, 0, 0, 1
  {
    StepsBelow(items, n, c);
    assert items[0..] == items;
    for i := 0 to |items|
      invariant EachBelow(items[i..], n) && forall s | s in Each(items[i..], c) :: s.node < n
      invariant Run(search.mode, search.State(), StepLiterals(n, Each(items[i..], c), 0))
             == Run(search.mode, old(search.State()), StepLiterals(n, Each(items, c), 0))
    {
      ghost var before := search.State();
      EachStep(n, items, c, i);
      StepsBelow(items[i + 1..], n, c);
      hide StepLiterals, Run, Each;
      WalkMaybe(n, items[i], c, search);
      RunJoin(search.mode, before, Reached(items[i], c), StepLiterals(n, Each(items[i + 1..], c), 0));
      if Found(search) {
        RunFinished(search.mode, search.State(), StepLiterals(n, Each(items[i + 1..], c), 0));
        return;
      }
    }
  }

  method WalkSelect(ghost n: Node, select: Select, c: Context, search: LiteralSearch)
    requires search.mode.matchAddr.None? && select < n
    modifies search
    ensures search.State() == Run(search.mode, old(search.State()), StepLiterals(n, WhereSteps(select, c), 0))
    decreases n, 0, 0, 1, select
  {
    ghost var start := search.State();
    ghost var l := if select.larg.Some? then WhereSteps(select.larg.value, c) else [];
    ghost var r := if select.rarg.Some? then WhereSteps(select.rarg.value, c) else [];
    OneStep(n, select.whereClause, c);
    WalkMaybe(n, select.whereClause, c, search);
    if select.larg.Some? {
      WalkSelect(n, select.larg.value, c, search);
    }
    if select.rarg.Some? {
      WalkSelect(n, select.rarg.value, c, search);
    }
    StepsJoin(n, Maybe(select.whereClause, c), l, 0);
    StepsJoin(n, Maybe(select.whereClause, c) + l, r, 0);
    RunJoin(search.mode, start, StepLiterals(n, Maybe(select.whereClause, c), 0), StepLiterals(n, l, 0));
    RunJoin(search.mode, start, StepLiterals(n, Maybe(select.whereClause, c) + l, 0), StepLiterals(n, r, 0));
  }

  // ----- the searches

  /** Counts the literals of a WHERE clause, none if there is no clause. */
  method CountLiterals(clause: Option<Node>) returns (count: nat)
    ensures count == |Reached(clause, BLANK)|
  {
    var search := new Search<LiteralInfo>(COUNTING, 0);
    if clause.Some? {
      Walk(clause.value, BLANK, search);
    }
    CountIsLength(Start(0), Reached(clause, BLANK));
    count := search.seen;
  }

  /** The k-th literal with its constant, its Node and its column context. */
  method FindLiteral(clause: Option<Node>, index: nat) returns (status: Status, literal: Option<Literal>)
    ensures var all := Reached(clause, BLANK);
            && status == (if index < |all| then Ok else InvalidArgument)
            && literal == (if index < |all| then Some(all[index]) else None)
  {
    var search := new Search<LiteralInfo>(BY_INDEX, index);
    if clause.Some? {
      Walk(clause.value, BLANK, search);
    }
    IndexFinds(Start(index), Reached(clause, BLANK));
    literal := search.target;
    status := if literal.None? then InvalidArgument else Ok;
  }
}

/** Laws of the literal numberings: writing a literal is a lens, parentheses are
    transparent, and the short way to a literal's Node leads to the same Node. */
module LiteralLaws {
  import opened Wrappers
  import opened OrdinalSearch
  import opened LiteralWalk

  // ----- the payload setter

  /** A value offered by the caller; strings may be missing. */
  datatype Value = NullLiteral | StringLiteral(text: Option<string>) | IntegerLiteral(number: int)
                 | FloatLiteral(digits: Option<string>) | BooleanLiteral(number: int) | UnknownLiteral

  const INT_MIN := -0x8000_0000
  const INT_MAX := 0x7FFF_FFFF

  /** The constant a value stands for, any nonzero boolean being true. */
  function Built(v: Value): Option<Constant> {
    match v
    case NullLiteral => Some(NullValue)
    case StringLiteral(text) => if text.Some? then Some(Text(text.value)) else None
    case IntegerLiteral(i) => if INT_MIN <= i <= INT_MAX then Some(Integer(i)) else None
    case FloatLiteral(digits) => if digits.Some? then Some(Float(digits.value)) else None
    case BooleanLiteral(i) => Some(Boolean(i != 0))
    case UnknownLiteral => None
  }

  /** One constant with its payload objects; `allocations` counts those alive. */
  class ConstantNode {
    var constant: Constant
    var allocations: nat

    predicate Valid()
      reads this
    {
      allocations == Objects(constant)
    }

    /** Builds the new payload before the old one is released, so that a refused
        value and a failed allocation leave the constant as it was. */
    method SetLiteral(v: Value, budget: nat) returns (status: Status)
      requires Valid()
      modifies this
      ensures Valid()
      ensures status == Ok <==> match v
                                case NullLiteral => true
                                case StringLiteral(text) => text.Some? && budget >= 2
                                case IntegerLiteral(i) => -0x8000_0000 <= i <= 0x7FFF_FFFF && budget >= 1
                                case FloatLiteral(digits) => digits.Some? && budget >= 2
                                case BooleanLiteral(_) => budget >= 1
                                case UnknownLiteral => false
      ensures status == Ok ==> Built(v).Some?
      ensures constant == if status == Ok then Built(v).value else old(constant)
      ensures status == Ok ==>
                match v
                case NullLiteral => constant == NullValue && allocations == 0
                case StringLiteral(text) => constant == Text(text.value) && allocations == 2
                case IntegerLiteral(i) => constant == Integer(i) && allocations == 1
                case FloatLiteral(digits) => constant == Float(digits.value) && allocations == 2
                case BooleanLiteral(i) => constant == Boolean(i != 0) && allocations == 1
                case UnknownLiteral => false
      ensures status == Unsupported <==> v.IntegerLiteral? && !(-0x8000_0000 <= v.number <= 0x7FFF_FFFF)
      ensures status == Unsupported <==> v.IntegerLiteral? && Built(v).None?
      ensures status == InvalidArgument <==> Built(v).None? && !v.IntegerLiteral?
    {
      var payload: Constant;
      var built: nat := 0;
      match v {
        case NullLiteral => payload := NullValue;
        case StringLiteral(text) =>
          if text.None? {
            return InvalidArgument;
          }
          built := if budget < 2 then budget else 2;
          allocations := allocations + built;
          if built < 2 {
            allocations := allocations - built;
            return NoMemory;
          }
          payload := Text(text.value);
        case IntegerLiteral(i) =>
          if i > INT_MAX || i < INT_MIN {
            return Unsupported;
          }
          if budget < 1 {
            return NoMemory;
          }
          built := 1;
          allocations := allocations + built;
          payload := Integer(i);
        case FloatLiteral(digits) =>
          if digits.None? {
            return InvalidArgument;
          }
          built := if budget < 2 then budget else 2;
          allocations := allocations + built;
          if built < 2 {
            allocations := allocations - built;
            return NoMemory;
          }
          payload := Float(digits.value);
        case BooleanLiteral(i) =>
          if budget < 1 {
            return NoMemory;
          }
          built := 1;
          allocations := allocations + built;
          payload := Boolean(i != 0);
        case UnknownLiteral => return InvalidArgument;
      }
      allocations := allocations - Objects(constant);
      constant := payload;
      status := Ok;
    }
  }

  /** Strings and floats are a message and its text, the others one message or none. */
  function Objects(c: Constant): nat {
    match c
    case NullValue => 0
    case NotSet => 0
    case Text(_) => 2
    case Float(_) => 2
    case BitString => 2
    case _ => 1
  }

  // ----- edits of an expression

  /** Writing one constant, or taking all grouping parentheses away. */
  datatype Edit = Put(cid: nat, constant: Constant) | Unwrap

  /** An indirection without subscripts stands for a pair of parentheses. */
  predicate IsParenthesis(n: Node) {
    n.expr.Indirection? && n.expr.base.Some? && n.expr.subscripts == []
  }

  function Apply(e: Edit, n: Node): Node
    decreases n
  {
    if e.Unwrap? && IsParenthesis(n) then Apply(e, n.expr.base.value)
    else Node(n.id, ApplyExpr(e, n.expr))
  }

  function ApplyExpr(e: Edit, x: Expr): Expr
    decreases x
  {
    match x
    case Const(cid, constant) =>
      if e.Put? && e.cid == cid && Supported(constant) then Const(cid, e.constant) else x
    case Operator(name, left, right) => Operator(name, ApplyMaybe(e, left), ApplyMaybe(e, right))
    case Wrapper(w, arg) => Wrapper(w, ApplyMaybe(e, arg))
    case Indirection(base, subscripts) => Indirection(ApplyMaybe(e, base), ApplyEach(e, subscripts))
    case Arguments(args) => Arguments(ApplyEach(e, args))
    case SubLink(test, subselect) => SubLink(ApplyMaybe(e, test), ApplyMaybe(e, subselect))
    case Query(select) => Query(ApplySelect(e, select))
    case _ => x
  }

  function ApplyMaybe(e: Edit, n: Option<Node>): (r: Option<Node>)
    ensures r.Some? == n.Some?
    decreases n
  {
    if n.Some? then Some(Apply(e, n.value)) else None
  }

  function ApplyEach(e: Edit, items: seq<Option<Node>>): (r: seq<Option<Node>>)
    ensures |r| == |items|
    decreases items
  {
    if items == [] then [] else [ApplyMaybe(e, items[0])] + ApplyEach(e, items[1..])
  }

  function ApplySelect(e: Edit, s: Select): Select
    decreases s
  {
    Select(ApplyMaybe(e, s.whereClause),
           if s.larg.Some? then Some(ApplySelect(e, s.larg.value)) else None,
           if s.rarg.Some? then Some(ApplySelect(e, s.rarg.value)) else None)
  }

  // ----- contexts and steps

  lemma {:induction false} SameColumn(e: Edit, n: Option<Node>)
    ensures ColumnOf(ApplyMaybe(e, n)) == ColumnOf(n)
    decreases n
  {
    if n.Some? {
      var x := n.value.expr;
      assert !(e.Unwrap? && IsParenthesis(n.value)) ==> Apply(e, n.value).expr == ApplyExpr(e, x);
      match x {
        case Wrapper(_, arg) => SameColumn(e, arg);
        case Indirection(base, _) => SameColumn(e, base);
        case Column(parts) => assert ApplyExpr(e, x) == x;
        case _ => assert ColumnOf(n) == None;
      }
    }
  }

  /** The steps of an edited expression are the edited steps. */
  ghost predicate StepsMatch(e: Edit, after: seq<Step>, before: seq<Step>) {
    && |after| == |before|
    && forall i | 0 <= i < |before| :: after[i] == Step(Apply(e, before[i].node), before[i].context)
  }

  lemma {:induction false} SameEach(e: Edit, items: seq<Option<Node>>, c: Context)
    ensures StepsMatch(e, Each(ApplyEach(e, items), c), Each(items, c))
    decreases items
  {
    if items != [] {
      SameEach(e, items[1..], c);
    }
  }

  lemma MatchJoin(e: Edit, a: seq<Step>, b: seq<Step>, c: seq<Step>, d: seq<Step>)
    requires StepsMatch(e, a, b) && StepsMatch(e, c, d)
    ensures StepsMatch(e, a + c, b + d)
  {
  }

  lemma MatchMaybe(e: Edit, n: Option<Node>, c: Context)
    ensures StepsMatch(e, Maybe(ApplyMaybe(e, n), c), Maybe(n, c))
  {
  }

  lemma {:induction false} SameWheres(e: Edit, s: Select, c: Context)
    ensures StepsMatch(e, WhereSteps(ApplySelect(e, s), c), WhereSteps(s, c))
    decreases s
  {
    var u := ApplySelect(e, s);
    var l := if s.larg.Some? then WhereSteps(s.larg.value, c) else [];
    var r := if s.rarg.Some? then WhereSteps(s.rarg.value, c) else [];
    var l' := if u.larg.Some? then WhereSteps(u.larg.value, c) else [];
    var r' := if u.rarg.Some? then WhereSteps(u.rarg.value, c) else [];
    if s.larg.Some? {
      SameWheres(e, s.larg.value, c);
    }
    if s.rarg.Some? {
      SameWheres(e, s.rarg.value, c);
    }
    MatchMaybe(e, s.whereClause, c);
    assert StepsMatch(e, l', l) && StepsMatch(e, r', r);
    assert u.whereClause == ApplyMaybe(e, s.whereClause);
    hide StepsMatch, Apply, ApplyMaybe;
    MatchJoin(e, Maybe(u.whereClause, c), Maybe(s.whereClause, c), l', l);
    MatchJoin(e, Maybe(u.whereClause, c) + l', Maybe(s.whereClause, c) + l, r', r);
  }

  lemma MatchTwo(e: Edit, a: Option<Node>, ca: Context, b: Option<Node>, cb: Context)
    ensures StepsMatch(e, Maybe(ApplyMaybe(e, a), ca) + Maybe(ApplyMaybe(e, b), cb), Maybe(a, ca) + Maybe(b, cb))
  {
    MatchMaybe(e, a, ca);
    MatchMaybe(e, b, cb);
    MatchJoin(e, Maybe(ApplyMaybe(e, a), ca), Maybe(a, ca), Maybe(ApplyMaybe(e, b), cb), Maybe(b, cb));
  }

  lemma SameSteps(e: Edit, x: Expr, c: Context)
    ensures StepsMatch(e, Steps(ApplyExpr(e, x), c), Steps(x, c))
  {
    match x {
      case Operator(name, left, right) =>
        SameColumn(e, left);
        SameColumn(e, right);
        MatchTwo(e, left, Beside(c, name, right), right, Beside(c, name, left));
      case Wrapper(_, arg) => MatchMaybe(e, arg, c);
      case SubLink(test, subselect) => MatchTwo(e, test, c, subselect, c);
      case Indirection(base, subscripts) =>
        MatchMaybe(e, base, c);
        SameEach(e, subscripts, c);
        MatchJoin(e, Maybe(ApplyMaybe(e, base), c), Maybe(base, c),
                  Each(ApplyEach(e, subscripts), c), Each(subscripts, c));
      case Arguments(args) => SameEach(e, args, c);
      case Query(select) => SameWheres(e, select, c);
      case Const(_, _) =>
      case Column(_) =>
      case Unvisited =>
    }
  }

  // ----- the WHERE literals

  function Written(e: Edit, l: Literal): Literal {
    if e.Put? && l.addr == e.cid then l.(info := l.info.(constant := e.constant)) else l
  }

  function AllWritten(e: Edit, literals: seq<Literal>): (r: seq<Literal>)
    ensures |r| == |literals| && forall i | 0 <= i < |literals| :: r[i] == Written(e, literals[i])
  {
    if literals == [] then [] else [Written(e, literals[0])] + AllWritten(e, literals[1..])
  }

  lemma WrittenJoin(e: Edit, a: seq<Literal>, b: seq<Literal>)
    ensures AllWritten(e, a + b) == AllWritten(e, a) + AllWritten(e, b)
  {
    hide AllWritten;
    var whole, parts := AllWritten(e, a + b), AllWritten(e, a) + AllWritten(e, b);
    assert |whole| == |parts| && forall i | 0 <= i < |whole| :: whole[i] == parts[i];
  }

  predicate Proper(e: Edit) {
    e.Put? ==> Supported(e.constant)
  }

  /** Writing a literal changes that literal's constant and nothing else: no count,
      no order, no other constant, no column context.  Taking parentheses away
      changes nothing at all. */
  lemma {:induction false} EditedLiterals(e: Edit, n: Node, c: Context)
    requires Proper(e)
    ensures Literals(Apply(e, n), c) == AllWritten(e, Literals(n, c))
    decreases n, 1
  {
    if e.Unwrap? && IsParenthesis(n) {
      EditedLiterals(e, n.expr.base.value, c);
      OneStep(n, n.expr.base, c);
      assert Steps(n.expr, c) == Maybe(n.expr.base, c);
    } else if !n.expr.Const? {
      SameSteps(e, n.expr, c);
      EditedSteps(e, Apply(e, n), n, Steps(Apply(e, n).expr, c), Steps(n.expr, c), 0);
    }
  }

  lemma {:induction false} EditedSteps(e: Edit, m: Node, n: Node, after: seq<Step>, before: seq<Step>, i: nat)
    requires Proper(e) && StepsMatch(e, after, before) && i <= |before|
    requires (forall s | s in before :: s.node < n) && forall s | s in after :: s.node < m
    ensures StepLiterals(m, after, i) == AllWritten(e, StepLiterals(n, before, i))
    decreases n, 0, |before| - i
  {
    if i < |before| {
      EditedLiterals(e, before[i].node, before[i].context);
      EditedSteps(e, m, n, after, before, i + 1);
      WrittenJoin(e, Literals(before[i].node, before[i].context), StepLiterals(n, before, i + 1));
    }
  }

  /** Reading literal k after writing it gives the written value; every other
      literal reads as before, in the same column context; the count stays. */
  lemma WriteThenRead(clause: Node, k: nat, v: Value)
    requires DistinctAddrs(Literals(clause, BLANK)) && k < |Literals(clause, BLANK)| && Built(v).Some?
    ensures var before := Literals(clause, BLANK);
            var after := Literals(Apply(Put(before[k].addr, Built(v).value), clause), BLANK);
            && |after| == |before|
            && after[k] == before[k].(info := before[k].info.(constant := Built(v).value))
            && forall j | 0 <= j < |before| && j != k :: after[j] == before[j]
  {
    EditedLiterals(Put(Literals(clause, BLANK)[k].addr, Built(v).value), clause, BLANK);
  }

  /** Writing what is there changes nothing. */
  lemma {:induction false} WriteBack(clause: Node, k: nat)
    requires DistinctAddrs(Literals(clause, BLANK)) && k < |Literals(clause, BLANK)|
    ensures var l := Literals(clause, BLANK)[k];
            Literals(Apply(Put(l.addr, l.info.constant), clause), BLANK) == Literals(clause, BLANK)
  {
    var l := Literals(clause, BLANK)[k];
    LiteralsAreSupported(clause, BLANK, k);
    EditedLiterals(Put(l.addr, l.info.constant), clause, BLANK);
  }

  lemma {:induction false} LiteralsAreSupported(n: Node, c: Context, k: nat)
    requires k < |Literals(n, c)|
    ensures Supported(Literals(n, c)[k].info.constant)
    decreases n, 1
  {
    if !n.expr.Const? {
      StepsAreSupported(n, Steps(n.expr, c), 0, k);
    }
  }

  lemma {:induction false} StepsAreSupported(n: Node, steps: seq<Step>, i: nat, k: nat)
    requires i <= |steps| && (forall s | s in steps :: s.node < n) && k < |StepLiterals(n, steps, i)|
    ensures Supported(StepLiterals(n, steps, i)[k].info.constant)
    decreases n, 0, |steps| - i
  {
    var here := Literals(steps[i].node, steps[i].context);
    if k < |here| {
      LiteralsAreSupported(steps[i].node, steps[i].context, k);
    } else {
      StepsAreSupported(n, steps, i + 1, k - |here|);
    }
  }

  /** Parentheses around any part of a WHERE clause change no literal ordinal and
      no column context. */
  lemma ParenthesesAreTransparent(clause: Node)
    ensures Literals(Apply(Unwrap, clause), BLANK) == Literals(clause, BLANK)
  {
    EditedLiterals(Unwrap, clause, BLANK);
    var all := Literals(clause, BLANK);
    assert AllWritten(Unwrap, all) == all;
  }

  /** No node that is visited stands for parentheses. */
  predicate Bare(n: Node) {
    && !(n.expr.Indirection? && n.expr.base.Some? && n.expr.subscripts == [])
    && forall s | s in Steps(n.expr, BLANK) :: Bare(s.node)
  }

  /** No parentheses are left when they are taken away. */
  lemma {:induction false} NoneAreLeft(n: Node)
    ensures Bare(Apply(Unwrap, n))
    decreases n
  {
    if IsParenthesis(n) {
      NoneAreLeft(n.expr.base.value);
    } else {
      var before, after := Steps(n.expr, BLANK), Steps(ApplyExpr(Unwrap, n.expr), BLANK);
      SameSteps(Unwrap, n.expr, BLANK);
      forall s | s in after
        ensures Bare(s.node)
      {
        var i :| 0 <= i < |after| && after[i] == s;
        assert before[i] in before;
        NoneAreLeft(before[i].node);
      }
    }
  }
}

/** One edit, two numberings: editing the tree and then looking at its WHERE clause
    is looking first and editing what is seen. */
module LiteralLens {
  import opened Wrappers
  import opened AstTree
  import opened LiteralView
  import opened LiteralEdits
  import L = LiteralWalk
  import M = MessageWalk
  import N = NodeWalk
  import W = LiteralLaws

  function PutMaybe(t: Option<Tree>, cid: nat, fields: seq<Field>): Option<Tree> {
    if t.Some? then Some(Put(t.value, cid, fields)) else None
  }

  function PutItem(m: MessageSlot, cid: nat, fields: seq<Field>): MessageSlot {
    m.(child := PutMaybe(m.child, cid, fields))
  }

  // ----- fields of an edited message

  lemma {:induction false} SameIndex(t: Tree, u: Tree, name: string, from: nat)
    requires from <= |t.fields| == |u.fields|
    requires forall i | 0 <= i < |t.fields| :: u.fields[i].name == t.fields[i].name
    ensures FieldIndex(u, name, from) == FieldIndex(t, name, from)
    decreases |t.fields| - from
  {
    if from < |t.fields| && t.fields[from].name != name {
      SameIndex(t, u, name, from + 1);
    }
  }

  lemma PutFields(t: Tree, cid: nat, fields: seq<Field>)
    requires !IsConst(t)
    ensures var u := Put(t, cid, fields);
            && u.id == t.id && u.kind == t.kind && |u.fields| == |t.fields|
            && forall i | 0 <= i < |t.fields| :: && u.fields[i] == PutField(t, i, cid, fields)
                                                 && u.fields[i].name == t.fields[i].name
                                                 && u.fields[i].active == t.fields[i].active
  {
    hide ConstantOf;
  }

  lemma PutSub(t: Tree, cid: nat, fields: seq<Field>, name: string)
    requires !IsConst(t)
    ensures Sub(Put(t, cid, fields), name) == PutMaybe(Sub(t, name), cid, fields)
  {
    hide Put;
    PutFields(t, cid, fields);
    SameIndex(t, Put(t, cid, fields), name, 0);
  }

  lemma PutSubMany(t: Tree, cid: nat, fields: seq<Field>, name: string)
    requires !IsConst(t)
    ensures var before, after := SubMany(t, name), SubMany(Put(t, cid, fields), name);
            |after| == |before| && forall j | 0 <= j < |before| :: after[j] == PutItem(before[j], cid, fields)
  {
    hide Put;
    PutFields(t, cid, fields);
    SameIndex(t, Put(t, cid, fields), name, 0);
  }

  lemma PutWrapped(t: Tree, cid: nat, fields: seq<Field>)
    requires !IsConst(t)
    ensures Wrapped(Put(t, cid, fields)) == PutMaybe(Wrapped(t), cid, fields)
  {
    hide Put;
    PutFields(t, cid, fields);
  }

  lemma PutKind(t: Tree, cid: nat, fields: seq<Field>)
    ensures Put(t, cid, fields).id == t.id && Put(t, cid, fields).kind == t.kind
  {
    hide ConstantOf;
  }

  // ----- strings stay

  lemma PutText(t: Tree, cid: nat, fields: seq<Field>, name: string)
    requires !IsConst(t)
    ensures TextOf(Some(Put(t, cid, fields)), name) == TextOf(Some(t), name)
  {
    hide Put;
    PutFields(t, cid, fields);
    SameIndex(t, Put(t, cid, fields), name, 0);
  }

  lemma {:induction false} PutParts(before: seq<MessageSlot>, after: seq<MessageSlot>, cid: nat, fields: seq<Field>)
    requires |after| == |before| && forall j | 0 <= j < |before| :: after[j] == PutItem(before[j], cid, fields)
    ensures Parts(after) == Parts(before)
    decreases |before|
  {
    hide Put, StringOf;
    if before != [] {
      PutParts(before[1..], after[1..], cid, fields);
      PutString(before[0].child, cid, fields);
    }
  }

  lemma PutString(n: Option<Tree>, cid: nat, fields: seq<Field>)
    ensures StringOf(PutMaybe(n, cid, fields)) == StringOf(n)
  {
    hide Put, TextOf, Wrapped;
    if n.Some? {
      PutKind(n.value, cid, fields);
      if IsNode(n.value) {
        PutWrapped(n.value, cid, fields);
        if Wrapped(n.value).Some? {
          PutKind(Wrapped(n.value).value, cid, fields);
          if N.Wraps(n.value, "String") {
            PutText(Wrapped(n.value).value, cid, fields, "sval");
          }
        }
      }
    }
  }

  lemma PutNumber(t: Tree, cid: nat, fields: seq<Field>, name: string)
    requires !IsConst(t)
    ensures Number(Put(t, cid, fields), name) == Number(t, name)
  {
    hide Put;
    PutFields(t, cid, fields);
    SameIndex(t, Put(t, cid, fields), name, 0);
  }

  lemma PutName(t: Tree, cid: nat, fields: seq<Field>)
    requires !IsConst(t)
    ensures OperatorName(Put(t, cid, fields)) == OperatorName(t)
  {
    hide Put, Parts, SubMany, Number, OperatorOf;
    PutNumber(t, cid, fields, "kind");
    PutSubMany(t, cid, fields, "name");
    PutParts(SubMany(t, "name"), SubMany(Put(t, cid, fields), "name"), cid, fields);
  }

  // ----- looking and editing commute

  lemma {:induction false} ViewCommutes(t: Tree, cid: nat, fields: seq<Field>)
    requires AreLiteral(cid, fields) && Flat(t)
    ensures Seen(Put(t, cid, fields))
         == W.Apply(W.Put(cid, ConstantOf(Tree(cid, CONST, fields))), Seen(t))
    decreases t, 3
  {
    hide Put, Said, W.ApplyExpr, ConstantOf, AreLiteral, Wrapped;
    PutKind(t, cid, fields);
    if IsNode(t) {
      PutWrapped(t, cid, fields);
      if Wrapped(t).Some? {
        FlatWrapped(t);
        SaidCommutes(Wrapped(t).value, cid, fields);
      }
    }
    UnvisitedStays(W.Put(cid, ConstantOf(Tree(cid, CONST, fields))));
  }

  lemma UnvisitedStays(e: W.Edit)
    ensures W.ApplyExpr(e, L.Unvisited) == L.Unvisited
  {
  }

  lemma FlatWrapped(t: Tree)
    requires Flat(t) && Wrapped(t).Some?
    ensures Flat(Wrapped(t).value)
  {
    assert FlatField(t, 0);
  }

  lemma FlatSub(t: Tree, name: string)
    requires Flat(t) && Sub(t, name).Some?
    ensures Flat(Sub(t, name).value)
  {
    assert FlatField(t, FieldIndex(t, name, 0));
  }

  lemma FlatSubMany(t: Tree, name: string)
    requires Flat(t)
    ensures forall j | 0 <= j < |SubMany(t, name)| && SubMany(t, name)[j].child.Some? ::
              Flat(SubMany(t, name)[j].child.value)
  {
    var i := FieldIndex(t, name, 0);
    if i < |t.fields| {
      assert FlatField(t, i);
    }
  }

  lemma ConstCommutes(w: Tree, cid: nat, fields: seq<Field>)
    requires IsConst(w) && AreLiteral(cid, fields) && Flat(w)
    ensures Said(Put(w, cid, fields))
         == W.ApplyExpr(W.Put(cid, ConstantOf(Tree(cid, CONST, fields))), Said(w))
  {
    hide Put, PutField, ConstantOf, Flat, M.MessagesFrom;
    FlatHere(w);
    NothingFrom(w, 0, cid, fields);
    PutConst(w, cid, fields);
  }

  lemma {:induction false} SaidCommutes(w: Tree, cid: nat, fields: seq<Field>)
    requires AreLiteral(cid, fields) && Flat(w)
    ensures Said(Put(w, cid, fields))
         == W.ApplyExpr(W.Put(cid, ConstantOf(Tree(cid, CONST, fields))), Said(w))
    decreases w, 2
  {
    hide Put, ConstantOf, AreLiteral, Flat, SeenMaybe, SeenEach, SelectOf, Sub, SubMany, Parts, Wrapped, OperatorName,
         W.ApplyMaybe, W.ApplyEach, W.ApplySelect;
    if IsConst(w) {
      ConstCommutes(w, cid, fields);
    } else {
      PutKind(w, cid, fields);
      if w.kind == "AExpr" {
        PutName(w, cid, fields);
        MaybeCommutes(w, cid, fields, "lexpr");
        MaybeCommutes(w, cid, fields, "rexpr");
      } else if WrappingOf(w.kind).Some? {
        MaybeCommutes(w, cid, fields, "arg");
      } else if w.kind == INDIRECTION {
        MaybeCommutes(w, cid, fields, "arg");
        ListCommutes(w, cid, fields, "indirection");
      } else if ListField(w.kind).Some? {
        ListCommutes(w, cid, fields, ListField(w.kind).value);
      } else if w.kind == "SubLink" {
        MaybeCommutes(w, cid, fields, "testexpr");
        MaybeCommutes(w, cid, fields, "subselect");
      } else if w.kind == "SelectStmt" {
        SelectCommutes(w, cid, fields);
      } else if w.kind == "ColumnRef" {
        PutSubMany(w, cid, fields, "fields");
        PutParts(SubMany(w, "fields"), SubMany(Put(w, cid, fields), "fields"), cid, fields);
      }
    }
  }

  lemma {:induction false} MaybeCommutes(w: Tree, cid: nat, fields: seq<Field>, name: string)
    requires AreLiteral(cid, fields) && Flat(w) && !IsConst(w)
    ensures var u, e := Put(w, cid, fields), W.Put(cid, ConstantOf(Tree(cid, CONST, fields)));
            SeenMaybe(u, Sub(u, name)) == W.ApplyMaybe(e, SeenMaybe(w, Sub(w, name)))
    decreases w, 0, 0
  {
    hide Put, ConstantOf, AreLiteral, Seen, Flat, Sub, W.Apply;
    PutSub(w, cid, fields, name);
    if Sub(w, name).Some? {
      FlatSub(w, name);
      ViewCommutes(Sub(w, name).value, cid, fields);
    }
  }

  lemma {:induction false} ListCommutes(w: Tree, cid: nat, fields: seq<Field>, name: string)
    requires AreLiteral(cid, fields) && Flat(w) && !IsConst(w)
    ensures var u, e := Put(w, cid, fields), W.Put(cid, ConstantOf(Tree(cid, CONST, fields)));
            SeenEach(u, SubMany(u, name), 0) == W.ApplyEach(e, SeenEach(w, SubMany(w, name), 0))
    decreases w, 1
  {
    hide Put, ConstantOf, AreLiteral, SeenEach, Flat, SubMany;
    PutSubMany(w, cid, fields, name);
    FlatSubMany(w, name);
    EachCommutes(w, Put(w, cid, fields), cid, fields, SubMany(w, name), SubMany(Put(w, cid, fields), name), 0);
  }

  lemma {:induction false} EachCommutes(w: Tree, u: Tree, cid: nat, fields: seq<Field>,
                                        before: seq<MessageSlot>, after: seq<MessageSlot>, j: nat)
    requires AreLiteral(cid, fields) && AreBelow(before, w) && AreBelow(after, u)
    requires forall k | 0 <= k < |before| && before[k].child.Some? :: Flat(before[k].child.value)
    requires j <= |before| == |after| && forall k | 0 <= k < |before| :: after[k] == PutItem(before[k], cid, fields)
    ensures SeenEach(u, after, j)
         == W.ApplyEach(W.Put(cid, ConstantOf(Tree(cid, CONST, fields))), SeenEach(w, before, j))
    decreases w, 0, |before| - j + 1
  {
    hide Put, ConstantOf, AreLiteral, Seen, Flat, W.Apply;
    if j < |before| {
      EachCommutes(w, u, cid, fields, before, after, j + 1);
      if before[j].child.Some? {
        ViewCommutes(before[j].child.value, cid, fields);
      }
      var here := SeenEach(w, before, j);
      assert here[0] == SeenMaybe(w, before[j].child) && here[1..] == SeenEach(w, before, j + 1);
    }
  }

  lemma FlatOperands(s: Tree)
    requires Flat(s) && s.kind == "SelectStmt"
    ensures SelectsFrom(s, "larg") && SelectsFrom(s, "rarg")
  {
  }

  lemma {:induction false} SelectCommutes(s: Tree, cid: nat, fields: seq<Field>)
    requires AreLiteral(cid, fields) && Flat(s) && s.kind == "SelectStmt"
    ensures SelectOf(Put(s, cid, fields))
         == W.ApplySelect(W.Put(cid, ConstantOf(Tree(cid, CONST, fields))), SelectOf(s))
    decreases s, 1
  {
    hide Put, ConstantOf, AreLiteral, SeenMaybe, Flat, Sub, W.ApplyMaybe;
    MaybeCommutes(s, cid, fields, "where_clause");
    FlatOperands(s);
    OperandCommutes(s, cid, fields, "larg");
    OperandCommutes(s, cid, fields, "rarg");
  }

  lemma {:induction false} OperandCommutes(s: Tree, cid: nat, fields: seq<Field>, name: string)
    requires AreLiteral(cid, fields) && Flat(s) && s.kind == "SelectStmt"
    requires SelectsFrom(s, name)
    ensures Sub(Put(s, cid, fields), name).Some? == Sub(s, name).Some?
    ensures Sub(s, name).Some?
      ==> SelectOf(Sub(Put(s, cid, fields), name).value)
          == W.ApplySelect(W.Put(cid, ConstantOf(Tree(cid, CONST, fields))), SelectOf(Sub(s, name).value))
    decreases s, 0
  {
    hide Put, ConstantOf, AreLiteral, SelectOf, Flat, Sub;
    PutSub(s, cid, fields, name);
    if Sub(s, name).Some? {
      FlatSub(s, name);
      SelectCommutes(Sub(s, name).value, cid, fields);
    }
  }

  // ----- one edit in both numberings

  lemma LiteralIsSupported(cid: nat, fields: seq<Field>)
    requires AreLiteral(cid, fields)
    ensures L.Supported(ConstantOf(Tree(cid, CONST, fields)))
  {
  }

  /** What stands below a constant has no messages of its own. */
  lemma {:induction false} UnderConst(t: Tree, x: Tree)
    requires Flat(t) && IsConst(t) && Under(t, x) && x != t
    ensures IsLeaf(x)
  {
    var c: Tree :| c < t && ChildOf(t, c) && Under(c, x);
    ChildOfConst(t, c);
    forall d: Tree
      ensures !ChildOf(c, d)
    {
      LeafHasNoChild(c, d);
    }
  }

  lemma LeafHasNoChild(c: Tree, d: Tree)
    requires IsLeaf(c)
    ensures !ChildOf(c, d)
  {
  }

  lemma ChildOfConst(t: Tree, c: Tree)
    requires Flat(t) && IsConst(t) && ChildOf(t, c)
    ensures IsLeaf(c)
  {
  }

  lemma FlatChild(t: Tree, c: Tree)
    requires Flat(t) && ChildOf(t, c)
    ensures Flat(c)
  {
    var i :| 0 <= i < |t.fields| && t.fields[i].active && HoldsChild(t.fields[i].value, c);
    assert FlatField(t, i);
  }

  lemma PutChild(t: Tree, c: Tree, cid: nat, fields: seq<Field>)
    requires !IsConst(t) && ChildOf(t, c)
    ensures ChildOf(Put(t, cid, fields), Put(c, cid, fields))
  {
    hide Put;
    PutFields(t, cid, fields);
    var u := Put(t, cid, fields);
    var i :| 0 <= i < |t.fields| && t.fields[i].active && HoldsChild(t.fields[i].value, c);
    assert u.fields[i] == PutField(t, i, cid, fields);
    if t.fields[i].value.Children? {
      var j :| 0 <= j < |t.fields[i].value.many| && t.fields[i].value.many[j].child == Some(c);
      assert u.fields[i].value.many[j].child == Some(Put(c, cid, fields));
    }
    assert HoldsChild(u.fields[i].value, Put(c, cid, fields));
  }

  /** Editing a message below the statement is editing it in its place. */
  lemma {:induction false} UnderStays(t: Tree, x: Tree, cid: nat, fields: seq<Field>)
    requires Flat(t) && Under(t, x) && !IsLeaf(x)
    ensures Flat(x) && Under(Put(t, cid, fields), Put(x, cid, fields))
    decreases t
  {
    hide Put, Flat, IsLeaf, ChildOf;
    if x != t {
      if IsConst(t) {
        UnderConst(t, x);
      } else {
        var c: Tree :| c < t && ChildOf(t, c) && Under(c, x);
        FlatChild(t, c);
        UnderStays(c, x, cid, fields);
        PutChild(t, c, cid, fields);
        var u, v := Put(t, cid, fields), Put(c, cid, fields);
        ChildUnder(u, v);
        UnderChain(u, v, Put(x, cid, fields));
      }
    }
  }

  lemma OwnersAreNoLeaves(x: Tree)
    requires Sub(x, "where_clause").Some?
    ensures !IsLeaf(x)
  {
  }

  /** Writing a literal of the statement and then numbering the literals of any WHERE
      clause in it is numbering them first and writing that one literal: neither
      numbering gains, loses or moves a literal. */
  lemma OneEdit(statement: Tree, owner: Tree, cid: nat, fields: seq<Field>)
    requires AreLiteral(cid, fields) && Flat(statement) && Under(statement, owner)
    requires !IsConst(owner) && Sub(owner, "where_clause").Some?
    ensures M.Messages(IsLiteral, Put(statement, cid, fields))
         == AllWritten(M.Messages(IsLiteral, statement), cid, fields)
    ensures Under(Put(statement, cid, fields), Put(owner, cid, fields))
    ensures var e, before := W.Put(cid, ConstantOf(Tree(cid, CONST, fields))), Sub(owner, "where_clause").value;
            var after := Sub(Put(owner, cid, fields), "where_clause");
            && after == Some(Put(before, cid, fields))
            && L.Literals(Seen(after.value), L.BLANK) == W.AllWritten(e, L.Literals(Seen(before), L.BLANK))
  {
    hide Put, Seen, Flat, Sub, Under, IsLeaf, L.Literals, M.Messages, AllWritten, W.AllWritten, W.Apply;
    OwnersAreNoLeaves(owner);
    UnderStays(statement, owner, cid, fields);
    PutSub(owner, cid, fields, "where_clause");
    FlatSub(owner, "where_clause");
    var clause := Sub(owner, "where_clause").value;
    EditedLiterals(statement, cid, fields);
    ViewCommutes(clause, cid, fields);
    LiteralIsSupported(cid, fields);
    W.EditedLiterals(W.Put(cid, ConstantOf(Tree(cid, CONST, fields))), Seen(clause), L.BLANK);
  }

  /** The literals of the WHERE clause that a statement's WHERE ordinals number. */
  function WhereLiterals(statement: Tree): seq<L.Literal> {
    var clause := WhereClause(statement);
    if clause.Some? then L.Literals(Seen(clause.value), L.BLANK) else []
  }

  lemma PutOwner(statement: Tree, cid: nat, fields: seq<Field>)
    ensures WhereOwner(Put(statement, cid, fields)) == PutMaybe(WhereOwner(statement), cid, fields)
    ensures WhereOwner(statement).Some? ==> Under(statement, WhereOwner(statement).value)
    ensures WhereOwner(statement).Some? ==> !IsConst(WhereOwner(statement).value)
  {
    hide Put, Sub, Under, Wrapped;
    PutKind(statement, cid, fields);
    if IsNode(statement) {
      PutWrapped(statement, cid, fields);
      if Wrapped(statement).Some? {
        var s := Wrapped(statement).value;
        WrappedChild(statement);
        ChildUnder(statement, s);
        PutKind(s, cid, fields);
        if s.kind == "InsertStmt" {
          PutSub(s, cid, fields, "select_stmt");
          if Sub(s, "select_stmt").Some? {
            var q := Sub(s, "select_stmt").value;
            ChildUnder(s, q);
            PutKind(q, cid, fields);
            if IsNode(q) {
              PutWrapped(q, cid, fields);
              if Wrapped(q).Some? {
                WrappedChild(q);
                ChildUnder(q, Wrapped(q).value);
                PutKind(Wrapped(q).value, cid, fields);
                UnderChain(s, q, Wrapped(q).value);
                UnderChain(statement, s, Wrapped(q).value);
              }
            }
          }
        }
      }
    }
  }

  /** Whatever literal of a statement is written, its WHERE literals are written or
      kept alike: an ordinal names the same literal before and after in both numberings. */
  lemma WhereLiteralsEdited(statement: Tree, cid: nat, fields: seq<Field>)
    requires AreLiteral(cid, fields) && Flat(statement)
    ensures M.Messages(IsLiteral, Put(statement, cid, fields))
         == AllWritten(M.Messages(IsLiteral, statement), cid, fields)
    ensures WhereLiterals(Put(statement, cid, fields))
         == W.AllWritten(W.Put(cid, ConstantOf(Tree(cid, CONST, fields))), WhereLiterals(statement))
  {
    hide Put, Seen, Flat, Sub, Under, WhereOwner, L.Literals, M.Messages, AllWritten;
    EditedLiterals(statement, cid, fields);
    PutOwner(statement, cid, fields);
    if WhereOwner(statement).Some? {
      var owner := WhereOwner(statement).value;
      PutSub(owner, cid, fields, "where_clause");
      if Sub(owner, "where_clause").Some? {
        OneEdit(statement, owner, cid, fields);
      }
    }
  }
}

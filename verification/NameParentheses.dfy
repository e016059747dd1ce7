/** Grouping parentheses are transparent to the name numbering. */
module NameParentheses {
  import opened Wrappers
  import opened AstTree
  import opened Parentheses
  import opened OrdinalSearch
  import opened NameWalk
  import opened NameLaws

  function StripContext(c: Option<Context>): Option<Context> {
    match c
    case None => None
    case Some(x) => Some(x.(fieldOwner := if x.fieldOwner.Some? then Some(Strip(x.fieldOwner.value)) else None))
  }

  /** A walker's contexts never name a Node wrapper as the owner of a field. */
  predicate OwnerIsMessage(c: Option<Context>) {
    c.Some? && c.value.fieldOwner.Some? ==> !IsNode(c.value.fieldOwner.value)
  }

  // ----- what is known of the policies

  predicate PlainFunctionName(t: Tree) {
    forall s | s in GetMany(t, "funcname") :: s.child.Some? ==> !IsParenthesis(s.child.value)
  }

  /** The policies read scalars, field names and the strings of a function name; no
      parentheses can change the first two, and the last only when they stand
      around a part of the function name. */
  ghost predicate PoliciesReadScalars(sc: Schema) {
    && (forall t :: !IsNode(t) ==> sc.multiVariableSet(Strip(t)) == sc.multiVariableSet(t))
    && (forall t :: !IsNode(t) ==> sc.explicitCall(Strip(t)) == sc.explicitCall(t))
    && (forall t :: !IsNode(t) ==> sc.notNullConstraint(Strip(t)) == sc.notNullConstraint(t))
    && (forall t, o :: !IsNode(t) && !IsNode(o) && PlainFunctionName(t)
          ==> sc.implicitPattern(Strip(t), Strip(o)) == sc.implicitPattern(t, o))
    && (forall t, c, name :: !IsParenthesis(t) && OwnerIsMessage(c)
          ==> sc.textual(Strip(t), StripContext(c), name) == sc.textual(t, c, name))
  }

  /** No part of a function name stands in parentheses anywhere in the tree. */
  predicate PlainNames(t: Tree)
    decreases t, 1
  {
    && (t.kind == "FuncCall" ==> PlainFunctionName(t))
    && forall i | 0 <= i < |t.fields| :: PlainField(t, i)
  }

  predicate PlainField(t: Tree, i: nat)
    requires i < |t.fields|
    decreases t, 0
  {
    match t.fields[i].value
    case Child(one) => one.child.Some? ==> PlainNames(one.child.value)
    case Children(many) => forall j | 0 <= j < |many| :: many[j].child.Some? ==> PlainNames(many[j].child.value)
    case _ => true
  }

  // ----- what stripping keeps of the policies

  lemma NodeInheritance(sc: Schema, omit: bool, t: Tree, i: nat, c: Option<Context>)
    requires Faithful(sc) && i < |t.fields| && (omit && c.Some? ==> c.value.locationOwner == None)
    requires IsNode(t) || (t.kind == INDIRECTION && IsGroupingIndirection(t))
    ensures Below(sc, omit, t, i, c) == c.GetOr(BLANK)
  {
  }

  lemma SameIdentifier(sc: Schema, t: Tree, c: Option<Context>, name: string)
    requires PoliciesReadScalars(sc) && !IsParenthesis(t) && OwnerIsMessage(c)
    ensures IsIdentifier(sc, Strip(t), StripContext(c), name) == IsIdentifier(sc, t, c, name)
  {
    hide PoliciesReadScalars, Strip, IsParenthesis, Unlocated, IsGroupingIndirection;
    SameMessage(t);
    SameTextual(sc, t, c, name);
    if c.Some? && c.value.fieldOwner.Some? {
      SameOwner(c.value.fieldOwner.value);
      SameChecks(sc, c.value.fieldOwner.value);
    }
    SameVariableSet(sc, t);
  }

  lemma SameTextual(sc: Schema, t: Tree, c: Option<Context>, name: string)
    requires PoliciesReadScalars(sc) && !IsParenthesis(t) && OwnerIsMessage(c)
    ensures sc.textual(Strip(t), Unlocated(StripContext(c)), name) == sc.textual(t, Unlocated(c), name)
  {
    hide Strip, IsParenthesis, PlainFunctionName;
    assert Unlocated(StripContext(c)) == StripContext(Unlocated(c));
  }

  lemma SameChecks(sc: Schema, o: Tree)
    requires PoliciesReadScalars(sc) && !IsNode(o)
    ensures sc.explicitCall(Strip(o)) == sc.explicitCall(o)
    ensures sc.notNullConstraint(Strip(o)) == sc.notNullConstraint(o)
  {
    hide Strip, IsParenthesis, PlainFunctionName;
  }

  lemma SameOwner(o: Tree)
    requires !IsNode(o)
    ensures Strip(o).id == o.id && Strip(o).kind == o.kind && !IsNode(Strip(o))
  {
    SameMessage(o);
  }

  lemma SameVariableSet(sc: Schema, t: Tree)
    requires PoliciesReadScalars(sc)
    ensures t.kind == "VariableSetStmt" ==> sc.multiVariableSet(Strip(t)) == sc.multiVariableSet(t)
  {
    assert |"VariableSetStmt"| != |NODE|;
  }

  lemma SameAtom(sc: Schema, t: Tree, owner: Option<nat>, c: Option<Context>, name: string, slot: StringSlot)
    requires PoliciesReadScalars(sc) && !IsParenthesis(t) && OwnerIsMessage(c)
    ensures Atom(sc, Strip(t), owner, StripContext(c), name, slot) == Atom(sc, t, owner, c, name, slot)
  {
    SameIdentifier(sc, t, c, name);
    SameMessage(t);
    if c.Some? && c.value.fieldOwner.Some? {
      SameOwner(c.value.fieldOwner.value);
    }
  }

  lemma SameNextContext(sc: Schema, t: Tree, c: Option<Context>, name: string)
    requires Faithful(sc) && PoliciesReadScalars(sc) && !IsParenthesis(t) && OwnerIsMessage(c) && PlainNames(t)
    ensures Some(NextContext(sc, Strip(t), name, StripContext(c))) == StripContext(Some(NextContext(sc, t, name, c)))
    ensures OwnerIsMessage(Some(NextContext(sc, t, name, c)))
  {
    SameMessage(t);
    if c.Some? && c.value.fieldOwner.Some? {
      SameOwner(c.value.fieldOwner.value);
    }
    assert |"FuncCall"| != |NODE|;
  }

  lemma SameBelow(sc: Schema, omit: bool, t: Tree, i: nat, c: Option<Context>)
    requires Faithful(sc) && PoliciesReadScalars(sc) && !IsParenthesis(t) && OwnerIsMessage(c) && PlainNames(t)
    requires i < |t.fields|
    ensures i < |Strip(t).fields| && Strip(t).fields[i] == StripField(t, i)
    ensures Some(Below(sc, omit, Strip(t), i, StripContext(c))) == StripContext(Some(Below(sc, omit, t, i, c)))
    ensures LocationOwner(sc, omit, Strip(t), StripContext(c)) == LocationOwner(sc, omit, t, c)
    ensures OwnerIsMessage(Some(Below(sc, omit, t, i, c)))
    ensures omit ==> Below(sc, omit, t, i, c).locationOwner == None
  {
    SameMessage(t);
    SameNextContext(sc, t, c, t.fields[i].name);
  }

  // ----- the theorem

  /** Taking all grouping parentheses away changes no name: not its ordinal, its
      slot, its value, its location owner, nor the owner and field it is reported
      under. */
  lemma {:induction false} ParenthesesAreTransparent(sc: Schema, omit: bool, t: Tree, c: Option<Context>)
    requires Faithful(sc) && PoliciesReadScalars(sc) && OwnerIsMessage(c) && PlainNames(t)
    requires omit && c.Some? ==> c.value.locationOwner == None
    ensures Names(sc, omit, Strip(t), StripContext(c)) == Names(sc, omit, t, c)
    decreases t, 3, 0
  {
    if IsParenthesis(t) {
      ParenthesisNames(sc, omit, t, c);
      PlainInside(t);
      ParenthesesAreTransparent(sc, omit, Inside(t), c);
    } else {
      SameMessage(t);
      TransparentFrom(sc, omit, t, c, 0);
    }
  }

  lemma PlainInside(t: Tree)
    requires IsParenthesis(t) && PlainNames(t)
    ensures PlainNames(Inside(t))
  {
    assert PlainField(t, 0);
    assert PlainField(Wrapped(t).value, 0);
  }

  lemma ParenthesisNames(sc: Schema, omit: bool, t: Tree, c: Option<Context>)
    requires Faithful(sc) && IsParenthesis(t)
    requires omit && c.Some? ==> c.value.locationOwner == None
    ensures Names(sc, omit, t, c) == Names(sc, omit, Inside(t), c)
  {
    var inner, d := Wrapped(t).value, Some(c.GetOr(BLANK));
    assert IsGroupingIndirection(inner) by {
      assert FieldIndex(inner, "indirection", 0) == 1;
    }
    NodeInheritance(sc, omit, t, 0, c);
    NodeInheritance(sc, omit, inner, 0, d);
    assert NamesFrom(sc, omit, t, c, 0) == FieldNames(sc, omit, t, c, 0) + NamesFrom(sc, omit, t, c, 1);
    IndirectionNames(sc, omit, inner, d);
    if c == None {
      BlankFrom(sc, omit, Inside(t), 0);
    }
  }

  lemma IndirectionNames(sc: Schema, omit: bool, inner: Tree, d: Option<Context>)
    requires |inner.fields| == 2 && inner.fields[0].active
    requires inner.fields[0].value.Child? && inner.fields[0].value.one.child.Some?
    requires inner.fields[1] == Field("indirection", Children([]), true)
    requires Some(Below(sc, omit, inner, 0, d)) == d
    ensures Names(sc, omit, inner, d) == Names(sc, omit, inner.fields[0].value.one.child.value, d)
  {
    assert NamesFrom(sc, omit, inner, d, 0) == FieldNames(sc, omit, inner, d, 0) + NamesFrom(sc, omit, inner, d, 1);
    assert NamesFrom(sc, omit, inner, d, 1) == FieldNames(sc, omit, inner, d, 1) + NamesFrom(sc, omit, inner, d, 2);
    assert ItemsFrom(sc, omit, inner, d, 1, 0) == [];
    assert NamesFrom(sc, omit, inner, d, 2) == [];
  }

  lemma {:induction false} TransparentFrom(sc: Schema, omit: bool, t: Tree, c: Option<Context>, i: nat)
    requires Faithful(sc) && PoliciesReadScalars(sc) && OwnerIsMessage(c) && PlainNames(t) && !IsParenthesis(t)
    requires i <= |t.fields| == |Strip(t).fields|
    ensures NamesFrom(sc, omit, Strip(t), StripContext(c), i) == NamesFrom(sc, omit, t, c, i)
    decreases t, 2, |t.fields| - i
  {
    if i < |t.fields| {
      TransparentField(sc, omit, t, c, i);
      TransparentFrom(sc, omit, t, c, i + 1);
    }
  }

  lemma {:induction false} TransparentField(sc: Schema, omit: bool, t: Tree, c: Option<Context>, i: nat)
    requires Faithful(sc) && PoliciesReadScalars(sc) && OwnerIsMessage(c) && PlainNames(t) && !IsParenthesis(t)
    requires i < |t.fields| == |Strip(t).fields|
    ensures FieldNames(sc, omit, Strip(t), StripContext(c), i) == FieldNames(sc, omit, t, c, i)
    decreases t, 1, 0
  {
    SameBelow(sc, omit, t, i, c);
    assert PlainField(t, i);
    var f := t.fields[i];
    match f.value {
      case Text(slot) => SameAtom(sc, t, LocationOwner(sc, omit, t, c), c, f.name, slot);
      case Texts(slots) => TransparentTexts(sc, t, LocationOwner(sc, omit, t, c), c, f.name, slots, 0);
      case Child(one) =>
        if one.child.Some? {
          ParenthesesAreTransparent(sc, omit, one.child.value, Some(Below(sc, omit, t, i, c)));
        }
      case Children(many) => TransparentItems(sc, omit, t, c, i, 0);
      case _ =>
    }
  }

  lemma {:induction false} TransparentTexts(sc: Schema, t: Tree, owner: Option<nat>, c: Option<Context>,
                                            name: string, slots: seq<StringSlot>, j: nat)
    requires PoliciesReadScalars(sc) && !IsParenthesis(t) && OwnerIsMessage(c) && j <= |slots|
    ensures TextsFrom(sc, Strip(t), owner, StripContext(c), name, slots, j)
         == TextsFrom(sc, t, owner, c, name, slots, j)
    decreases |slots| - j
  {
    if j < |slots| {
      SameAtom(sc, t, owner, c, name, slots[j]);
      TransparentTexts(sc, t, owner, c, name, slots, j + 1);
    }
  }

  lemma {:induction false} TransparentItems(sc: Schema, omit: bool, t: Tree, c: Option<Context>, i: nat, j: nat)
    requires Faithful(sc) && PoliciesReadScalars(sc) && OwnerIsMessage(c) && PlainNames(t) && !IsParenthesis(t)
    requires i < |t.fields| == |Strip(t).fields| && Strip(t).fields[i] == StripField(t, i)
    requires t.fields[i].value.Children? && j <= |t.fields[i].value.many|
    ensures ItemsFrom(sc, omit, Strip(t), StripContext(c), i, j) == ItemsFrom(sc, omit, t, c, i, j)
    decreases t, 0, |t.fields[i].value.many| - j
  {
    hide Names, Below, Strip, IsParenthesis, PoliciesReadScalars, PlainNames, StripContext, Faithful;
    var many := t.fields[i].value.many;
    if j < |many| {
      SameBelow(sc, omit, t, i, c);
      PlainBelow(t, i, j);
      TransparentItems(sc, omit, t, c, i, j + 1);
      if many[j].child.Some? {
        ParenthesesAreTransparent(sc, omit, many[j].child.value, Some(Below(sc, omit, t, i, c)));
      }
    }
  }

  lemma PlainBelow(t: Tree, i: nat, j: nat)
    requires PlainNames(t) && i < |t.fields| && t.fields[i].value.Children? && j < |t.fields[i].value.many|
    ensures t.fields[i].value.many[j].child.Some? ==> PlainNames(t.fields[i].value.many[j].child.value)
  {
    assert PlainField(t, i);
  }
}

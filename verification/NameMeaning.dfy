/** Which strings of a statement are names, and under which owner and field they are
    reported. */
module NameMeaning {
  import opened Wrappers
  import opened AstTree
  import opened OrdinalSearch
  import opened NameWalk

  // ----- contexts

  /** A message that lends its children the context it has itself. */
  predicate IsTransparent(sc: Schema, t: Tree) {
    || (t.kind == "AIndirection" && GetMany(t, "indirection") == [])
    || sc.classOf(t.kind) == Container
    || (sc.classOf(t.kind) == Unlisted && t.kind in {"Node", "List", "String"})
  }

  /** A function call that the parser wraps around the pattern of LIKE or SIMILAR TO. */
  predicate IsPatternCall(sc: Schema, t: Tree, context: Option<Context>) {
    && t.kind == "FuncCall" && context.Some?
    && context.value.ownerType == Some("AExpr") && context.value.fieldName == Some("rexpr")
    && context.value.fieldOwner.Some? && context.value.fieldOwner.value.kind == "AExpr"
    && sc.implicitPattern(t, context.value.fieldOwner.value)
  }

  /** The context of a child: that of a transparent parent, or the parent itself with the
      field; the names of a pattern call are no identifiers; the nearest message with a
      location of its own owns the location, unless owners are left out. */
  lemma ContextMeans(sc: Schema, omit: bool, t: Tree, i: nat, context: Option<Context>)
    requires i < |t.fields|
    ensures var d, f := Below(sc, omit, t, i, context), t.fields[i];
            && d.locationOwner == (if omit then None
                                   else if sc.located(t.kind) then Some(t.id)
                                   else if context.Some? then context.value.locationOwner else None)
            && if IsTransparent(sc, t) then
                 if context.Some? then d == context.value.(locationOwner := d.locationOwner)
                 else d == Context(None, None, None, d.locationOwner, false, UnknownPolicy)
               else
                 && d.ownerType == Some(t.kind) && d.fieldName == Some(f.name) && d.fieldOwner == Some(t)
                 && (d.forbidden <==> f.name == "funcname" && IsPatternCall(sc, t, context))
                 && d.policy == if sc.classOf(t.kind) == Ordinary then sc.fieldPolicy(t.kind, f.name)
                                else UnknownPolicy
  {
  }

  // ----- identifiers

  /** The policy that decides: the inherited one for the text of a container, the table's
      for a listed message, and otherwise the textual one. */
  predicate IsNameText(sc: Schema, t: Tree, context: Option<Context>, name: string) {
    var inherited := && sc.classOf(t.kind) == Container && context.Some?
                     && context.value.ownerType.Some? && context.value.fieldName.Some?;
    var policy := if inherited then context.value.policy
                  else if sc.classOf(t.kind) == Ordinary then sc.fieldPolicy(t.kind, name) else UnknownPolicy;
    var owner := if context.Some? then context.value.fieldOwner else None;
    && !(context.Some? && context.value.forbidden)
    && policy != NoPolicy
    && (policy == VariableSetPolicy ==> t.kind == "VariableSetStmt" && !sc.multiVariableSet(t))
    && (policy == FuncCallPolicy ==> owner.Some? && owner.value.kind == "FuncCall" && sc.explicitCall(owner.value))
    && (policy == ConstraintKeysPolicy ==>
          !(owner.Some? && owner.value.kind == "Constraint" && sc.notNullConstraint(owner.value)))
    && (policy == UnknownPolicy ==> sc.textual(t, Unlocated(context), name))
  }

  /** A nonempty string that is an identifier is a name, reported under the inherited owner
      and field if its message is a container and has inherited them. */
  lemma AtomMeans(sc: Schema, t: Tree, owner: Option<nat>, context: Option<Context>, name: string, slot: StringSlot)
    ensures var contained := || sc.classOf(t.kind) == Container
                             || (sc.classOf(t.kind) == Unlisted && t.kind in {"Node", "List", "String"});
            var c := if context.Some? then context.value else Context(None, None, None, None, false, UnknownPolicy);
            Atom(sc, t, owner, context, name, slot)
            == if slot.text.Some? && slot.text.value != "" && IsNameText(sc, t, context, name)
               then [Hit(slot.addr,
                         NameInfo(if contained && c.ownerType.Some? then c.ownerType.value else t.kind,
                                  if contained && c.fieldName.Some? then c.fieldName.value else name,
                                  slot.text.value, owner,
                                  if c.fieldOwner.Some? then Some(c.fieldOwner.value.id) else None))]
               else []
  {
  }

  // ----- every name of the statement

  /** x is reached from t, entered in a context, in the context d. */
  ghost predicate Comes(sc: Schema, omit: bool, t: Tree, context: Option<Context>, x: Tree, d: Option<Context>)
    decreases t, 2
  {
    || (x == t && d == context)
    || exists i | 0 <= i < |t.fields| :: t.fields[i].active && ComesBelow(sc, omit, t, i, context, x, d)
  }

  ghost predicate ComesBelow(sc: Schema, omit: bool, t: Tree, i: nat, context: Option<Context>, x: Tree,
                             d: Option<Context>)
    requires i < |t.fields|
    decreases t, 1
  {
    match t.fields[i].value
    case Child(one) => ComesIn(sc, omit, t, one, Some(Below(sc, omit, t, i, context)), x, d)
    case Children(many) =>
      exists j | 0 <= j < |many| :: ComesIn(sc, omit, t, many[j], Some(Below(sc, omit, t, i, context)), x, d)
    case _ => false
  }

  ghost predicate ComesIn(sc: Schema, omit: bool, t: Tree, slot: MessageSlot, context: Option<Context>, x: Tree,
                          d: Option<Context>)
    requires slot < t
    decreases t, 0
  {
    slot.child.Some? && Comes(sc, omit, slot.child.value, context, x, d)
  }

  /** The name is that of a string of x itself. */
  ghost predicate IsOwn(sc: Schema, omit: bool, x: Tree, d: Option<Context>, h: Name) {
    exists i | 0 <= i < |x.fields| :: x.fields[i].active && IsOwnAt(sc, omit, x, i, d, h)
  }

  ghost predicate IsOwnAt(sc: Schema, omit: bool, x: Tree, i: nat, d: Option<Context>, h: Name)
    requires i < |x.fields|
  {
    match x.fields[i].value
    case Text(slot) => h in Atom(sc, x, LocationOwner(sc, omit, x, d), d, x.fields[i].name, slot)
    case Texts(slots) =>
      exists j | 0 <= j < |slots| :: h in Atom(sc, x, LocationOwner(sc, omit, x, d), d, x.fields[i].name, slots[j])
    case _ => false
  }

  ghost predicate IsName(sc: Schema, omit: bool, t: Tree, context: Option<Context>, h: Name) {
    exists x, d :: Comes(sc, omit, t, context, x, d) && IsOwn(sc, omit, x, d, h)
  }

  /** The name is that of a string under field i, or of a message below it. */
  ghost predicate FieldHas(sc: Schema, omit: bool, t: Tree, i: nat, context: Option<Context>, h: Name)
    requires i < |t.fields|
  {
    && t.fields[i].active
    && (IsOwnAt(sc, omit, t, i, context, h)
        || exists x, d :: ComesBelow(sc, omit, t, i, context, x, d) && IsOwn(sc, omit, x, d, h))
  }

  lemma SomeFieldHas(sc: Schema, omit: bool, t: Tree, context: Option<Context>, h: Name)
    ensures IsName(sc, omit, t, context, h)
       <==> exists i | 0 <= i < |t.fields| :: FieldHas(sc, omit, t, i, context, h)
  {
    hide IsOwnAt, ComesBelow;
    if x, d :| Comes(sc, omit, t, context, x, d) && IsOwn(sc, omit, x, d, h) {
      if x == t && d == context {
        var i :| 0 <= i < |t.fields| && t.fields[i].active && IsOwnAt(sc, omit, t, i, context, h);
        assert FieldHas(sc, omit, t, i, context, h);
      } else {
        var i :| 0 <= i < |t.fields| && t.fields[i].active && ComesBelow(sc, omit, t, i, context, x, d);
        assert FieldHas(sc, omit, t, i, context, h);
      }
    }
    if i :| 0 <= i < |t.fields| && FieldHas(sc, omit, t, i, context, h) {
      if IsOwnAt(sc, omit, t, i, context, h) {
        assert Comes(sc, omit, t, context, t, context) && IsOwn(sc, omit, t, context, h);
      } else {
        var x, d :| ComesBelow(sc, omit, t, i, context, x, d) && IsOwn(sc, omit, x, d, h);
        assert Comes(sc, omit, t, context, x, d);
      }
    }
  }

  lemma {:induction false} TextsAre(sc: Schema, t: Tree, owner: Option<nat>, context: Option<Context>, name: string,
                                    slots: seq<StringSlot>, j: nat, h: Name)
    requires j <= |slots|
    ensures h in TextsFrom(sc, t, owner, context, name, slots, j)
       <==> exists k | j <= k < |slots| :: h in Atom(sc, t, owner, context, name, slots[k])
    decreases |slots| - j
  {
    hide Atom;
    if j < |slots| {
      TextsAre(sc, t, owner, context, name, slots, j + 1, h);
    }
  }

  /** Exactly the strings that are identifiers in the context their message is reached in
      are names. */
  lemma {:induction false} NamesAre(sc: Schema, omit: bool, t: Tree, context: Option<Context>, h: Name)
    ensures h in Names(sc, omit, t, context) <==> IsName(sc, omit, t, context, h)
    decreases t, 3, 0
  {
    hide IsName, FieldHas;
    NamesFromAre(sc, omit, t, context, 0, h);
    SomeFieldHas(sc, omit, t, context, h);
  }

  lemma {:induction false} NamesFromAre(sc: Schema, omit: bool, t: Tree, context: Option<Context>, i: nat, h: Name)
    requires i <= |t.fields|
    ensures h in NamesFrom(sc, omit, t, context, i)
       <==> exists k | i <= k < |t.fields| :: FieldHas(sc, omit, t, k, context, h)
    decreases t, 2, |t.fields| - i
  {
    hide FieldHas, FieldNames;
    if i < |t.fields| {
      FieldNamesAre(sc, omit, t, context, i, h);
      NamesFromAre(sc, omit, t, context, i + 1, h);
    }
  }

  lemma {:induction false} FieldNamesAre(sc: Schema, omit: bool, t: Tree, context: Option<Context>, i: nat, h: Name)
    requires i < |t.fields|
    ensures h in FieldNames(sc, omit, t, context, i) <==> FieldHas(sc, omit, t, i, context, h)
    decreases t, 1, 0
  {
    hide Atom, Names, TextsFrom, ItemsFrom, Below, LocationOwner, IsName, IsOwn, Comes, ComesBelow;
    var f := t.fields[i];
    ComesBelowMeans(sc, omit, t, i, context, h);
    if f.active {
      match f.value {
        case Texts(slots) => TextsAre(sc, t, LocationOwner(sc, omit, t, context), context, f.name, slots, 0, h);
        case Child(one) =>
          if one.child.Some? {
            var d := Some(Below(sc, omit, t, i, context));
            NamesAre(sc, omit, one.child.value, d, h);
            NameIs(sc, omit, one.child.value, d, h);
          }
        case Children(many) => ItemsAre(sc, omit, t, context, i, 0, h);
        case _ =>
      }
    }
  }

  /** A string below field i is one below an entry of it. */
  lemma ComesBelowMeans(sc: Schema, omit: bool, t: Tree, i: nat, context: Option<Context>, h: Name)
    requires i < |t.fields|
    ensures (exists x, d :: ComesBelow(sc, omit, t, i, context, x, d) && IsOwn(sc, omit, x, d, h))
       <==> match t.fields[i].value
            case Child(one) =>
              one.child.Some?
              && exists x, d :: Comes(sc, omit, one.child.value, Some(Below(sc, omit, t, i, context)), x, d)
                                && IsOwn(sc, omit, x, d, h)
            case Children(many) =>
              exists k, x, d | 0 <= k < |many| ::
                ComesIn(sc, omit, t, many[k], Some(Below(sc, omit, t, i, context)), x, d)
                && IsOwn(sc, omit, x, d, h)
            case _ => false
  {
    hide Below, IsOwn, Comes;
    var v, e := t.fields[i].value, Some(Below(sc, omit, t, i, context));
    if x, d :| ComesBelow(sc, omit, t, i, context, x, d) && IsOwn(sc, omit, x, d, h) {
      match v {
        case Child(one) =>
          assert ComesIn(sc, omit, t, one, e, x, d);
          assert Comes(sc, omit, one.child.value, e, x, d);
        case Children(many) =>
          var k :| 0 <= k < |many| && ComesIn(sc, omit, t, many[k], e, x, d);
        case _ =>
      }
    }
    if v.Child? && v.one.child.Some? {
      if x, d :| Comes(sc, omit, v.one.child.value, e, x, d) && IsOwn(sc, omit, x, d, h) {
        assert ComesIn(sc, omit, t, v.one, e, x, d);
        assert ComesBelow(sc, omit, t, i, context, x, d);
      }
    } else if v.Children? {
      if k, x, d :| 0 <= k < |v.many| && ComesIn(sc, omit, t, v.many[k], e, x, d) && IsOwn(sc, omit, x, d, h) {
        assert ComesBelow(sc, omit, t, i, context, x, d);
      }
    }
  }

  lemma NameIs(sc: Schema, omit: bool, t: Tree, context: Option<Context>, h: Name)
    ensures IsName(sc, omit, t, context, h)
       <==> exists x, d :: Comes(sc, omit, t, context, x, d) && IsOwn(sc, omit, x, d, h)
  {
  }

  lemma {:induction false} ItemsAre(sc: Schema, omit: bool, t: Tree, context: Option<Context>, i: nat, j: nat, h: Name)
    requires i < |t.fields| && t.fields[i].value.Children? && j <= |t.fields[i].value.many|
    ensures h in ItemsFrom(sc, omit, t, context, i, j)
       <==> exists k, x, d | j <= k < |t.fields[i].value.many| ::
              ComesIn(sc, omit, t, t.fields[i].value.many[k], Some(Below(sc, omit, t, i, context)), x, d)
              && IsOwn(sc, omit, x, d, h)
    decreases t, 0, |t.fields[i].value.many| - j
  {
    hide Names, Below, IsName, IsOwn, Comes;
    var many, d := t.fields[i].value.many, Some(Below(sc, omit, t, i, context));
    if j < |many| {
      ItemsAre(sc, omit, t, context, i, j + 1, h);
      if many[j].child.Some? {
        NamesAre(sc, omit, many[j].child.value, d, h);
        NameIs(sc, omit, many[j].child.value, d, h);
      }
    }
  }
}

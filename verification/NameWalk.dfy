/** The numbering of renameable identifier atoms, read one by ordinal or in bulk. */
module NameWalk {
  import opened Wrappers
  import opened AstTree
  import opened OrdinalSearch

  // ----- contexts and the identifier policy

  /** What a walker remembers of the nearest message that is not a mere container. */
  datatype Context = Context(ownerType: Option<string>, fieldName: Option<string>, fieldOwner: Option<Tree>,
                             locationOwner: Option<nat>, forbidden: bool, policy: Policy)

  datatype Policy = UnknownPolicy | NoPolicy | YesPolicy | VariableSetPolicy | FuncCallPolicy | ConstraintKeysPolicy

  datatype SchemaClass = Unlisted | Ordinary | Container

  /** The generated schema tables and the checks that read scalar attributes. */
  datatype Schema = Schema(
    classOf: string -> SchemaClass,
    fieldPolicy: (string, string) -> Policy,
    textual: (Tree, Option<Context>, string) -> bool,
    multiVariableSet: Tree -> bool,
    explicitCall: Tree -> bool,
    notNullConstraint: Tree -> bool,
    implicitPattern: (Tree, Tree) -> bool,
    located: string -> bool)

  const BLANK := Context(None, None, None, None, false, UnknownPolicy)

  /** Context-dependent facts of the real schema the numbering relies on: Node is a
      container, neither it nor an indirection has a location of its own, and the
      textual policy does not tell a missing context from a blank one. */
  ghost predicate Faithful(sc: Schema) {
    && sc.classOf(NODE) != Ordinary
    && !sc.located(NODE) && !sc.located(INDIRECTION)
    && (forall t, name :: sc.textual(t, None, name) == sc.textual(t, Some(BLANK), name))
  }

  /** The policies do not look at the location owner. */
  function Unlocated(context: Option<Context>): Option<Context> {
    if context.Some? then Some(context.value.(locationOwner := None)) else None
  }

  predicate NameContainer(sc: Schema, kind: string) {
    if sc.classOf(kind) != Unlisted then sc.classOf(kind) == Container
    else kind == NODE || kind == "List" || kind == "String"
  }

  /** Whether the string under a field of t is an identifier. */
  predicate IsIdentifier(sc: Schema, t: Tree, context: Option<Context>, name: string) {
    if context.Some? && context.value.forbidden then false
    else
      var policy :=
        if sc.classOf(t.kind) == Container && context.Some? && context.value.ownerType.Some?
           && context.value.fieldName.Some?
        then context.value.policy
        else if sc.classOf(t.kind) == Ordinary then sc.fieldPolicy(t.kind, name)
        else UnknownPolicy;
      match policy
      case NoPolicy => false
      case YesPolicy => true
      case VariableSetPolicy => t.kind == "VariableSetStmt" && !sc.multiVariableSet(t)
      case FuncCallPolicy => OwnerIs(context, "FuncCall") && sc.explicitCall(context.value.fieldOwner.value)
      case ConstraintKeysPolicy =>
        !(OwnerIs(context, "Constraint") && sc.notNullConstraint(context.value.fieldOwner.value))
      case UnknownPolicy => sc.textual(t, Unlocated(context), name)
  }

  predicate OwnerIs(context: Option<Context>, kind: string) {
    context.Some? && context.value.fieldOwner.Some? && context.value.fieldOwner.value.kind == kind
  }

  /** The context the children of a field inherit. */
  function NextContext(sc: Schema, t: Tree, name: string, context: Option<Context>): Context {
    if IsGroupingIndirection(t) || NameContainer(sc, t.kind) then
      context.GetOr(BLANK)
    else
      var forbidden :=
        && t.kind == "FuncCall" && name == "funcname"
        && context.Some? && context.value.ownerType == Some("AExpr") && context.value.fieldName == Some("rexpr")
        && OwnerIs(context, "AExpr")
        && sc.implicitPattern(t, context.value.fieldOwner.value);
      Context(Some(t.kind), Some(name), Some(t), None, forbidden,
              if sc.classOf(t.kind) == Ordinary then sc.fieldPolicy(t.kind, name) else UnknownPolicy)
  }

  /** The message that owns the source location of the names in t. */
  function LocationOwner(sc: Schema, omit: bool, t: Tree, context: Option<Context>): Option<nat> {
    if omit then None
    else if sc.located(t.kind) then Some(t.id)
    else if context.Some? then context.value.locationOwner
    else None
  }

  // ----- the reference enumeration

  datatype NameInfo = NameInfo(ownerType: string, fieldName: string, value: string,
                               locationOwner: Option<nat>, fieldOwner: Option<nat>)

  type Name = Hit<NameInfo>

  /** The name in one string slot, if it is one. */
  function Atom(sc: Schema, t: Tree, owner: Option<nat>, context: Option<Context>, name: string, slot: StringSlot)
    : (r: seq<Name>)
    ensures |r| <= 1
  {
    if slot.text.None? || slot.text.value == "" || !IsIdentifier(sc, t, context, name) then []
    else
      var inherited := NameContainer(sc, t.kind) && context.Some?;
      var ownerType := if inherited && context.value.ownerType.Some? then context.value.ownerType.value else t.kind;
      var fieldName := if inherited && context.value.fieldName.Some? then context.value.fieldName.value else name;
      var fieldOwner := if context.Some? && context.value.fieldOwner.Some? then Some(context.value.fieldOwner.value.id)
                        else None;
      [Hit(slot.addr, NameInfo(ownerType, fieldName, slot.text.value, owner, fieldOwner))]
  }

  function Below(sc: Schema, omit: bool, t: Tree, i: nat, context: Option<Context>): Context
    requires i < |t.fields|
  {
    NextContext(sc, t, t.fields[i].name, context).(locationOwner := LocationOwner(sc, omit, t, context))
  }

  /** All names below a message, in schema order, every wrapper visited. */
  function Names(sc: Schema, omit: bool, t: Tree, context: Option<Context>): seq<Name>
    decreases t, 3, 0
  {
    NamesFrom(sc, omit, t, context, 0)
  }

  function NamesFrom(sc: Schema, omit: bool, t: Tree, context: Option<Context>, i: nat): seq<Name>
    requires i <= |t.fields|
    decreases t, 2, |t.fields| - i
  {
    if i == |t.fields| then [] else FieldNames(sc, omit, t, context, i) + NamesFrom(sc, omit, t, context, i + 1)
  }

  function FieldNames(sc: Schema, omit: bool, t: Tree, context: Option<Context>, i: nat): seq<Name>
    requires i < |t.fields|
    decreases t, 1, 0
  {
    var f := t.fields[i];
    if !f.active then []
    else
      match f.value
      case Text(slot) => Atom(sc, t, LocationOwner(sc, omit, t, context), context, f.name, slot)
      case Texts(slots) => TextsFrom(sc, t, LocationOwner(sc, omit, t, context), context, f.name, slots, 0)
      case Child(one) =>
        if one.child.Some? then Names(sc, omit, one.child.value, Some(Below(sc, omit, t, i, context))) else []
      case Children(many) => ItemsFrom(sc, omit, t, context, i, 0)
      case _ => []
  }

  function TextsFrom(sc: Schema, t: Tree, owner: Option<nat>, context: Option<Context>, name: string,
                     slots: seq<StringSlot>, j: nat): seq<Name>
    requires j <= |slots|
    decreases |slots| - j
  {
    if j == |slots| then []
    else Atom(sc, t, owner, context, name, slots[j]) + TextsFrom(sc, t, owner, context, name, slots, j + 1)
  }

  function ItemsFrom(sc: Schema, omit: bool, t: Tree, context: Option<Context>, i: nat, j: nat): seq<Name>
    requires i < |t.fields| && t.fields[i].value.Children? && j <= |t.fields[i].value.many|
    decreases t, 0, |t.fields[i].value.many| - j
  {
    var many := t.fields[i].value.many;
    if j == |many| then []
    else
      (if many[j].child.Some? then Names(sc, omit, many[j].child.value, Some(Below(sc, omit, t, i, context))) else [])
      + ItemsFrom(sc, omit, t, context, i, j + 1)
  }

  // ----- broken arrays

  /** No visited repeated field is a NULL array with a nonzero count. */
  predicate Intact(t: Tree)
    decreases t, 1
  {
    forall i | 0 <= i < |t.fields| :: t.fields[i].active ==> IntactField(t, i)
  }

  predicate IntactField(t: Tree, i: nat)
    requires i < |t.fields|
    decreases t, 0
  {
    match t.fields[i].value
    case BrokenTexts => false
    case BrokenChildren => false
    case Child(one) => one.child.Some? ==> Intact(one.child.value)
    case Children(many) => forall j | 0 <= j < |many| :: many[j].child.Some? ==> Intact(many[j].child.value)
    case _ => true
  }

  // ----- the fused Node shortcut

  /** A Node whose wrapped message can be visited in its place. */
  predicate Fusable(t: Tree) {
    IsNode(t) && |t.fields| == 1 && t.fields[0].active && t.fields[0].value.Child?
  }

  /** Visiting the wrapped message with the wrapper's own context gives the same names. */
  lemma FusedNode(sc: Schema, omit: bool, t: Tree, context: Context)
    requires Faithful(sc) && Fusable(t) && (omit ==> context.locationOwner == None)
    ensures Names(sc, omit, t, Some(context))
         == if Wrapped(t).Some? then Names(sc, omit, Wrapped(t).value, Some(context)) else []
  {
    assert |NODE| != |INDIRECTION|;
    assert Below(sc, omit, t, 0, Some(context)) == context;
    assert NamesFrom(sc, omit, t, Some(context), 0)
        == FieldNames(sc, omit, t, Some(context), 0) + NamesFrom(sc, omit, t, Some(context), 1);
  }

  // ----- the ordinal walker

  /** Numbers the names below t; in index mode it leaves as soon as the target is found. */
  method Walk(sc: Schema, omit: bool, t: Tree, context: Option<Context>, search: Search<NameInfo>)
    requires Faithful(sc) && Intact(t) && !search.mode.exitOnMatch
    requires omit && context.Some? ==> context.value.locationOwner == None
    modifies search
    ensures search.State() == Run(search.mode, old(search.State()), Names(sc, omit, t, context))
    decreases t, 1
  {
    if search.mode.wantTarget && search.target.Some? {
      return;
    }
    if Fusable(t) && context.Some? && (!omit || context.value.locationOwner == None) {
      FusedNode(sc, omit, t, context.value);
      match t.fields[0].value.one.child {
        case Some(child) => Walk(sc, omit, child, context, search);
        case None =>
      }
      return;
    }
    for i := 0 to |t.fields|
      invariant !search.Over()
      invariant Run(search.mode, search.State(), NamesFrom(sc, omit, t, context, i))
             == Run(search.mode, old(search.State()), Names(sc, omit, t, context))
    {
      ghost var before := search.State();
      WalkField(sc, omit, t, context, i, search);
      RunJoin(search.mode, before, FieldNames(sc, omit, t, context, i), NamesFrom(sc, omit, t, context, i + 1));
      if search.mode.wantTarget && search.target.Some? {
        return;
      }
    }
  }

  method WalkField(sc: Schema, omit: bool, t: Tree, context: Option<Context>, i: nat, search: Search<NameInfo>)
    requires Faithful(sc) && Intact(t) && !search.mode.exitOnMatch && i < |t.fields|
    requires omit && context.Some? ==> context.value.locationOwner == None
    requires !search.Over()
    modifies search
    ensures search.State() == Run(search.mode, old(search.State()), FieldNames(sc, omit, t, context, i))
    decreases t, 0, 1
  {
    var f := t.fields[i];
    if !f.active {
      return;
    }
    assert IntactField(t, i);
    var owner := LocationOwner(sc, omit, t, context);
    match f.value {
      case Text(slot) =>
        RecordAtom(sc, t, owner, context, f.name, slot, search);
      case Texts(slots) =>
        WalkTexts(sc, t, owner, context, f.name, slots, search);
      case Child(one) =>
        if one.child.Some? {
          Walk(sc, omit, one.child.value, Some(Below(sc, omit, t, i, context)), search);
        }
      case Children(many) =>
        WalkItems(sc, omit, t, context, i, many, search);
      case _ =>
    }
  }

  method WalkItems(sc: Schema, omit: bool, t: Tree, context: Option<Context>, i: nat, many: seq<MessageSlot>,
                   search: Search<NameInfo>)
    requires Faithful(sc) && !search.mode.exitOnMatch && i < |t.fields| && t.fields[i].value == Children(many)
    requires forall s | s in many :: s.child.Some? ==> Intact(s.child.value)
    requires omit && context.Some? ==> context.value.locationOwner == None
    requires !search.Over()
    modifies search
    ensures search.State() == Run(search.mode, old(search.State()), ItemsFrom(sc, omit, t, context, i, 0))
    decreases t, 0, 0
  {
    for j := 0 to |many|
      invariant !search.Over()
      invariant Run(search.mode, search.State(), ItemsFrom(sc, omit, t, context, i, j))
             == Run(search.mode, old(search.State()), ItemsFrom(sc, omit, t, context, i, 0))
    {
      ghost var before := search.State();
      if many[j].child.Some? {
        assert many[j] in many;
        var child := many[j].child.value;
        Walk(sc, omit, child, Some(Below(sc, omit, t, i, context)), search);
        RunJoin(search.mode, before, Names(sc, omit, child, Some(Below(sc, omit, t, i, context))),
                ItemsFrom(sc, omit, t, context, i, j + 1));
        if search.mode.wantTarget && search.target.Some? {
          return;
        }
      } else {
        assert ItemsFrom(sc, omit, t, context, i, j) == ItemsFrom(sc, omit, t, context, i, j + 1);
      }
    }
  }

  method WalkTexts(sc: Schema, t: Tree, owner: Option<nat>, context: Option<Context>, name: string,
                   slots: seq<StringSlot>, search: Search<NameInfo>)
    requires !search.Over() && !search.mode.exitOnMatch
    modifies search
    ensures search.State() == Run(search.mode, old(search.State()), TextsFrom(sc, t, owner, context, name, slots, 0))
  {
    for j := 0 to |slots|
      invariant !search.Over()
      invariant Run(search.mode, search.State(), TextsFrom(sc, t, owner, context, name, slots, j))
             == Run(search.mode, old(search.State()), TextsFrom(sc, t, owner, context, name, slots, 0))
    {
      ghost var before := search.State();
      RecordAtom(sc, t, owner, context, name, slots[j], search);
      RunJoin(search.mode, before, Atom(sc, t, owner, context, name, slots[j]),
              TextsFrom(sc, t, owner, context, name, slots, j + 1));
      if search.mode.wantTarget && search.target.Some? {
        return;
      }
    }
  }

  method RecordAtom(sc: Schema, t: Tree, owner: Option<nat>, context: Option<Context>, name: string,
                    slot: StringSlot, search: Search<NameInfo>)
    requires !search.Over()
    modifies search
    ensures search.State() == Run(search.mode, old(search.State()), Atom(sc, t, owner, context, name, slot))
  {
    var atom := Atom(sc, t, owner, context, name, slot);
    if |atom| == 1 {
      RunOne(search.mode, search.State(), atom[0]);
      assert atom == [atom[0]];
      search.Record(atom[0]);
    }
  }
}

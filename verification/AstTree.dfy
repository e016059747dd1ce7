/** The tree as the read-only walkers see it: every message with its visited fields
    in schema order, every slot with its address. */
module AstTree {
  import opened Wrappers

  /** A string slot: its address and the string it points to. */
  datatype StringSlot = StringSlot(addr: nat, text: Option<string>)

  /** A message slot: its address and the message it points to. */
  datatype MessageSlot = MessageSlot(addr: nat, child: Option<Tree>)

  /** `BrokenTexts` and `BrokenChildren` are repeated fields whose array pointer is
      NULL although their count is not zero. */
  datatype Value =
    | Text(slot: StringSlot)
    | Texts(slots: seq<StringSlot>)
    | Child(one: MessageSlot)
    | Children(many: seq<MessageSlot>)
    | BrokenTexts
    | BrokenChildren
    | Scalar(number: int)

  /** `active` is the runtime one-of test of the field. */
  datatype Field = Field(name: string, value: Value, active: bool)

  /** A Node wrapper lists only the alternative its case selects, if any. */
  datatype Tree = Tree(id: nat, kind: string, fields: seq<Field>)

  const NODE := "Node"
  const INDIRECTION := "AIndirection"

  // ----- field access

  function FieldIndex(t: Tree, name: string, from: nat): (i: nat)
    requires from <= |t.fields|
    ensures from <= i <= |t.fields|
    ensures i < |t.fields| ==> t.fields[i].name == name
    decreases |t.fields| - from
  {
    if from == |t.fields| || t.fields[from].name == name then from else FieldIndex(t, name, from + 1)
  }

  /** The single child under a field name. */
  function Get(t: Tree, name: string): (r: Option<Tree>)
    ensures r.Some? ==> r.value < t
  {
    var i := FieldIndex(t, name, 0);
    if i < |t.fields| && t.fields[i].value.Child? then t.fields[i].value.one.child else None
  }

  /** The repeated children under a field name. */
  function GetMany(t: Tree, name: string): (r: seq<MessageSlot>)
    ensures forall s | s in r :: s < t
  {
    var i := FieldIndex(t, name, 0);
    if i < |t.fields| && t.fields[i].value.Children? then t.fields[i].value.many else []
  }

  /** Where the target list of a SELECT or an UPDATE is among the fields. */
  function TargetField(t: Tree): nat {
    FieldIndex(t, "target_list", 0)
  }

  function Number(t: Tree, name: string): int {
    var i := FieldIndex(t, name, 0);
    if i < |t.fields| && t.fields[i].value.Scalar? then t.fields[i].value.number else 0
  }

  /** A schema names no field of a message twice. */
  predicate NamedOnce(t: Tree) {
    forall i, j | 0 <= i < j < |t.fields| :: t.fields[i].name != t.fields[j].name
  }

  lemma {:induction false} FieldFound(t: Tree, i: nat, from: nat)
    requires NamedOnce(t) && from <= i < |t.fields|
    ensures FieldIndex(t, t.fields[i].name, from) == i
    decreases i - from
  {
    if from < i {
      FieldFound(t, i, from + 1);
    }
  }

  /** A field is read by its name, and one that is not there reads as absent, empty or zero. */
  lemma FieldsAreRead(t: Tree, i: nat)
    requires NamedOnce(t) && i < |t.fields|
    ensures var f := t.fields[i];
            && Get(t, f.name) == (if f.value.Child? then f.value.one.child else None)
            && GetMany(t, f.name) == (if f.value.Children? then f.value.many else [])
            && Number(t, f.name) == if f.value.Scalar? then f.value.number else 0
    ensures forall name | (forall j | 0 <= j < |t.fields| :: t.fields[j].name != name) ::
              Get(t, name) == None && GetMany(t, name) == [] && Number(t, name) == 0
  {
    FieldFound(t, i, 0);
  }

  // ----- Node wrappers and grouping parentheses

  predicate IsNode(t: Tree) {
    t.kind == NODE
  }

  /** The message a Node wraps. */
  function Wrapped(t: Tree): (r: Option<Tree>)
    ensures r.Some? ==> r.value < t
  {
    if |t.fields| == 1 && t.fields[0].active && t.fields[0].value.Child? then t.fields[0].value.one.child else None
  }

  /** An indirection without subscripts stands for a pair of parentheses. */
  predicate IsGroupingIndirection(t: Tree) {
    t.kind == INDIRECTION && GetMany(t, "indirection") == []
  }

  predicate IsGroupingWrapper(t: Tree) {
    IsNode(t) && Wrapped(t).Some? && IsGroupingIndirection(Wrapped(t).value)
  }

  // ----- taking parentheses away

  /** A Node around an indirection that has an argument and no subscripts. */
  predicate IsParenthesis(t: Tree) {
    && IsNode(t) && Wrapped(t).Some?
    && var inner := Wrapped(t).value;
    && inner.kind == INDIRECTION
    && |inner.fields| == 2
    && inner.fields[0].name == "arg" && inner.fields[0].active
    && inner.fields[0].value.Child? && inner.fields[0].value.one.child.Some?
    && inner.fields[1] == Field("indirection", Children([]), true)
  }

  function Inside(t: Tree): (r: Tree)
    requires IsParenthesis(t)
    ensures r < t
  {
    Wrapped(t).value.fields[0].value.one.child.value
  }

  /** The tree without its grouping parentheses. */
  function Strip(t: Tree): (r: Tree)
    decreases t
  {
    if IsParenthesis(t) then Strip(Inside(t))
    else Tree(t.id, t.kind, seq(|t.fields|, i requires 0 <= i < |t.fields| => StripField(t, i)))
  }

  function StripField(t: Tree, i: nat): Field
    requires i < |t.fields|
    decreases t, 0
  {
    var f := t.fields[i];
    match f.value
    case Child(one) =>
      f.(value := Child(one.(child := if one.child.Some? then Some(Strip(one.child.value)) else None)))
    case Children(many) =>
      f.(value := Children(seq(|many|, j requires 0 <= j < |many| =>
          many[j].(child := if many[j].child.Some? then Some(Strip(many[j].child.value)) else None))))
    case _ => f
  }
}

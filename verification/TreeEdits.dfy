/** What the edits of a tree do to it as a whole. */
module TreeEdits {
  import opened Wrappers
  import opened AstTree
  import opened LiteralView
  import LiteralEdits
  import TargetOrdinals

  // ----- one change, everywhere it applies

  /** b is a with every topmost message that the test selects changed as told, and with
      nothing else different: not in alternatives that are not selected either. */
  ghost predicate Changed(a: Tree, b: Tree, selects: Tree -> bool, change: Tree -> Tree)
    decreases a, 2
  {
    if selects(a) then b == change(a)
    else
      && b.id == a.id && b.kind == a.kind && |b.fields| == |a.fields|
      && forall i | 0 <= i < |a.fields| :: ChangedField(a, i, b.fields[i], selects, change)
  }

  ghost predicate ChangedField(a: Tree, i: nat, f: Field, selects: Tree -> bool, change: Tree -> Tree)
    requires i < |a.fields|
    decreases a, 1
  {
    var e := a.fields[i];
    if !e.active then f == e
    else
      && f.name == e.name && f.active
      && match e.value
         case Child(one) => f.value.Child? && ChangedSlot(a, one, f.value.one, selects, change)
         case Children(many) =>
           && f.value.Children? && |f.value.many| == |many|
           && forall j | 0 <= j < |many| :: ChangedSlot(a, many[j], f.value.many[j], selects, change)
         case _ => f.value == e.value
  }

  ghost predicate ChangedSlot(a: Tree, s: MessageSlot, r: MessageSlot, selects: Tree -> bool, change: Tree -> Tree)
    requires s < a
    decreases a, 0
  {
    && r.addr == s.addr && (r.child.Some? <==> s.child.Some?)
    && (s.child.Some? ==> Changed(s.child.value, r.child.value, selects, change))
  }

  /** The first field of the name holds other messages, and the rest of the message stays. */
  function WithMany(t: Tree, name: string, items: seq<MessageSlot>): Tree {
    Tree(t.id, t.kind, seq(|t.fields|, i requires 0 <= i < |t.fields| =>
        if t.fields[i].name == name && (forall j | 0 <= j < i :: t.fields[j].name != name)
        then Field(name, Children(items), t.fields[i].active) else t.fields[i]))
  }

  /** Installing a target list changes the list of the SELECT with this identity alone. */
  lemma {:induction false} TargetsAreSet(t: Tree, id: nat, items: seq<MessageSlot>)
    ensures Changed(t, TargetOrdinals.SetTargets(t, id, items),
                    (s: Tree) => s.kind == "SelectStmt" && s.id == id && GetMany(s, "target_list") != [],
                    (s: Tree) => WithMany(s, "target_list", items))
    decreases t, 1
  {
    var u := TargetOrdinals.SetTargets(t, id, items);
    var selects := (s: Tree) => s.kind == "SelectStmt" && s.id == id && GetMany(s, "target_list") != [];
    var change := (s: Tree) => WithMany(s, "target_list", items);
    if selects(t) {
      FirstNamed(t, "target_list", 0);
      assert u == change(t);
    } else {
      forall i | 0 <= i < |t.fields|
        ensures ChangedField(t, i, u.fields[i], selects, change)
      {
        assert u.fields[i] == TargetOrdinals.SetField(t, i, id, items);
        TargetsAreSetBelow(t, i, id, items);
      }
    }
  }

  lemma {:induction false} TargetsAreSetBelow(t: Tree, i: nat, id: nat, items: seq<MessageSlot>)
    requires i < |t.fields|
    ensures ChangedField(t, i, TargetOrdinals.SetField(t, i, id, items),
                         (s: Tree) => s.kind == "SelectStmt" && s.id == id && GetMany(s, "target_list") != [],
                         (s: Tree) => WithMany(s, "target_list", items))
    decreases t, 0
  {
    match t.fields[i].value {
      case Child(one) =>
        if one.child.Some? {
          TargetsAreSet(one.child.value, id, items);
        }
      case Children(many) =>
        forall j | 0 <= j < |many| && many[j].child.Some? {
          TargetsAreSet(many[j].child.value, id, items);
        }
      case _ =>
    }
  }

  lemma {:induction false} FirstNamed(t: Tree, name: string, from: nat)
    requires from <= |t.fields|
    ensures var n := FieldIndex(t, name, from);
            && forall j | from <= j < n :: t.fields[j].name != name
    decreases |t.fields| - from
  {
    if from < |t.fields| {
      FirstNamed(t, name, from + 1);
    }
  }

  /** Writing a literal changes the fields of the constant with this identity alone. */
  lemma {:induction false} LiteralIsPut(t: Tree, cid: nat, fields: seq<Field>)
    ensures Changed(t, LiteralEdits.Put(t, cid, fields),
                    (x: Tree) => IsLiteral(x) && x.id == cid,
                    (x: Tree) => Tree(cid, "AConst", fields))
    decreases t, 1
  {
    var u := LiteralEdits.Put(t, cid, fields);
    var selects, change := (x: Tree) => IsLiteral(x) && x.id == cid, (x: Tree) => Tree(cid, "AConst", fields);
    if !selects(t) {
      forall i | 0 <= i < |t.fields|
        ensures ChangedField(t, i, u.fields[i], selects, change)
      {
        assert u.fields[i] == LiteralEdits.PutField(t, i, cid, fields);
        LiteralIsPutBelow(t, i, cid, fields);
      }
    }
  }

  lemma {:induction false} LiteralIsPutBelow(t: Tree, i: nat, cid: nat, fields: seq<Field>)
    requires i < |t.fields|
    ensures ChangedField(t, i, LiteralEdits.PutField(t, i, cid, fields),
                         (x: Tree) => IsLiteral(x) && x.id == cid,
                         (x: Tree) => Tree(cid, "AConst", fields))
    decreases t, 0
  {
    match t.fields[i].value {
      case Child(one) =>
        if one.child.Some? {
          LiteralIsPut(one.child.value, cid, fields);
        }
      case Children(many) =>
        forall j | 0 <= j < |many| && many[j].child.Some? {
          LiteralIsPut(many[j].child.value, cid, fields);
        }
      case _ =>
    }
  }

  // ----- taking parentheses away

  /** A Node around an indirection that has an argument and no subscripts. */
  predicate IsCover(t: Tree) {
    && t.kind == "Node" && Wrapped(t).Some? && Wrapped(t).value.kind == "AIndirection"
    && var f := Wrapped(t).value.fields;
    && |f| == 2 && f[0].name == "arg" && f[0].active && f[0].value.Child? && f[0].value.one.child.Some?
    && f[1].name == "indirection" && f[1].active && f[1].value == Children([])
  }

  predicate IsUncovered(t: Tree) {
    !IsCover(t)
  }

  predicate Everywhere(holds: Tree -> bool, t: Tree)
    decreases t, 1
  {
    holds(t) && forall i | 0 <= i < |t.fields| :: EverywhereBelow(holds, t, i)
  }

  predicate EverywhereBelow(holds: Tree -> bool, t: Tree, i: nat)
    requires i < |t.fields|
    decreases t, 0
  {
    match t.fields[i].value
    case Child(one) => one.child.Some? ==> Everywhere(holds, one.child.value)
    case Children(many) => forall j | 0 <= j < |many| :: many[j].child.Some? ==> Everywhere(holds, many[j].child.value)
    case _ => true
  }

  /** A Node wraps a message and never another Node. */
  predicate WrapsMessage(t: Tree) {
    t.kind == "Node" && Wrapped(t).Some? ==> Wrapped(t).value.kind != "Node"
  }

  /** Afterwards no parentheses are left. */
  lemma {:induction false} NoneAreLeft(t: Tree)
    requires Everywhere(WrapsMessage, t)
    ensures Everywhere(IsUncovered, Strip(t))
    ensures t.kind != "Node" ==> Strip(t).kind == t.kind
    decreases t, 1
  {
    if IsParenthesis(t) {
      assert EverywhereBelow(WrapsMessage, t, 0);
      assert EverywhereBelow(WrapsMessage, Wrapped(t).value, 0);
      NoneAreLeft(Inside(t));
      assert Strip(t) == Strip(Inside(t));
    } else {
      var u := Strip(t);
      forall i | 0 <= i < |t.fields|
        ensures EverywhereBelow(IsUncovered, u, i)
      {
        assert u.fields[i] == StripField(t, i) && EverywhereBelow(WrapsMessage, t, i);
        NoneAreLeftBelow(t, u, i);
      }
      assert WrapsMessage(t);
      StillNoCover(t, u);
      assert IsUncovered(u);
    }
  }

  lemma {:induction false} NoneAreLeftBelow(t: Tree, u: Tree, i: nat)
    requires i < |t.fields| == |u.fields| && u.fields[i] == StripField(t, i) && EverywhereBelow(WrapsMessage, t, i)
    ensures EverywhereBelow(IsUncovered, u, i)
    decreases t, 0
  {
    match t.fields[i].value {
      case Child(one) =>
        if one.child.Some? {
          NoneAreLeft(one.child.value);
        }
      case Children(many) =>
        forall j | 0 <= j < |many| && many[j].child.Some? {
          NoneAreLeft(many[j].child.value);
        }
      case _ =>
    }
  }

  lemma StillNoCover(t: Tree, u: Tree)
    requires !IsParenthesis(t) && u == Strip(t) && WrapsMessage(t)
    ensures !IsCover(u)
  {
    if t.kind == "Node" && |t.fields| == 1 {
      assert u.fields[0] == StripField(t, 0);
      if Wrapped(t).Some? {
        var w := Wrapped(t).value;
        assert Wrapped(u) == Some(Strip(w));
        assert Strip(w).kind == w.kind && |Strip(w).fields| == |w.fields|;
        forall i | 0 <= i < |w.fields|
          ensures Strip(w).fields[i] == StripField(w, i)
        {
        }
      }
    }
  }

  /** A tree without parentheses stays as it is. */
  lemma {:induction false} NothingToStrip(t: Tree)
    requires Everywhere(IsUncovered, t)
    ensures Strip(t) == t
    decreases t, 1
  {
    assert IsUncovered(t);
    forall i | 0 <= i < |t.fields|
      ensures StripField(t, i) == t.fields[i]
    {
      assert EverywhereBelow(IsUncovered, t, i);
      NothingToStripBelow(t, i);
    }
    assert Strip(t).fields == t.fields;
  }

  lemma {:induction false} NothingToStripBelow(t: Tree, i: nat)
    requires i < |t.fields| && EverywhereBelow(IsUncovered, t, i)
    ensures StripField(t, i) == t.fields[i]
    decreases t, 0
  {
    match t.fields[i].value {
      case Child(one) =>
        if one.child.Some? {
          NothingToStrip(one.child.value);
        }
      case Children(many) =>
        forall j | 0 <= j < |many| && many[j].child.Some?
          ensures Strip(many[j].child.value) == many[j].child.value
        {
          NothingToStrip(many[j].child.value);
        }
        assert StripField(t, i).value.many == many;
      case _ =>
    }
  }
}

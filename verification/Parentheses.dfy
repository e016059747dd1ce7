/** What one message keeps when the grouping parentheses below it are taken away. */
module Parentheses {
  import opened Wrappers
  import opened AstTree

  lemma {:induction false} SameFieldIndex(t: Tree, name: string, from: nat)
    requires !IsParenthesis(t) && from <= |t.fields|
    ensures from <= |Strip(t).fields| && FieldIndex(Strip(t), name, from) == FieldIndex(t, name, from)
    decreases |t.fields| - from
  {
    if from < |t.fields| {
      assert Strip(t).fields[from] == StripField(t, from);
      SameFieldIndex(t, name, from + 1);
    }
  }

  lemma SameMessage(t: Tree)
    requires !IsParenthesis(t)
    ensures Strip(t).id == t.id && Strip(t).kind == t.kind && |Strip(t).fields| == |t.fields|
    ensures IsGroupingIndirection(Strip(t)) <==> IsGroupingIndirection(t)
  {
    SameFieldIndex(t, "indirection", 0);
    var i := FieldIndex(t, "indirection", 0);
    if i < |t.fields| {
      assert Strip(t).fields[i] == StripField(t, i);
    }
  }

  function StripOption(t: Option<Tree>): Option<Tree> {
    if t.Some? then Some(Strip(t.value)) else None
  }

  lemma SameGet(t: Tree, name: string)
    requires !IsParenthesis(t)
    ensures Get(Strip(t), name) == StripOption(Get(t, name))
  {
    SameFieldIndex(t, name, 0);
    var i := FieldIndex(t, name, 0);
    if i < |t.fields| {
      assert Strip(t).fields[i] == StripField(t, i);
    }
  }

  lemma SameWrapped(t: Tree)
    requires !IsParenthesis(t)
    ensures Wrapped(Strip(t)) == StripOption(Wrapped(t))
  {
    if |t.fields| == 1 {
      assert Strip(t).fields[0] == StripField(t, 0);
    }
  }
}

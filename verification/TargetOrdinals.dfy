/** Target-list ordinals of SELECT statements when one target list is edited. */
module TargetOrdinals {
  import opened Wrappers
  import opened AstTree
  import opened OrdinalSearch
  import opened MessageWalk
  import opened Sequences

  function Spliced<A>(s: seq<A>, at: nat, removed: nat, items: seq<A>): seq<A>
    requires at + removed <= |s|
  {
    s[..at] + items + s[at + removed..]
  }

  lemma SplicedLeft<A>(a: seq<A>, b: seq<A>, at: nat, removed: nat, items: seq<A>)
    requires at + removed <= |a|
    ensures Spliced(a + b, at, removed, items) == Spliced(a, at, removed, items) + b
  {
    assert (a + b)[..at] == a[..at];
    assert (a + b)[at + removed..] == a[at + removed..] + b;
  }

  lemma SplicedRight<A>(a: seq<A>, b: seq<A>, at: nat, removed: nat, items: seq<A>)
    requires |a| <= at && at + removed <= |a| + |b|
    ensures Spliced(a + b, at, removed, items) == a + Spliced(b, at - |a|, removed, items)
  {
    var front, back := b[..at - |a|], b[at - |a| + removed..];
    TakeJoin(a, b, at);
    DropJoin(a, b, at + removed);
    Associative(a, front, items);
    Associative(a, front + items, back);
  }

  // ----- editing the tree

  /** The SELECT with another target list. */
  function WithTargets(t: Tree, items: seq<MessageSlot>): Tree
    requires HasTargetList(t)
  {
    t.(fields := t.fields[TargetField(t) := t.fields[TargetField(t)].(value := Children(items))])
  }

  /** The tree in which the SELECT with this identity has another target list. */
  function SetTargets(t: Tree, id: nat, items: seq<MessageSlot>): Tree
    decreases t, 1
  {
    if HasTargetList(t) && t.id == id then WithTargets(t, items)
    else Tree(t.id, t.kind, seq(|t.fields|, i requires 0 <= i < |t.fields| => SetField(t, i, id, items)))
  }

  function SetField(t: Tree, i: nat, id: nat, items: seq<MessageSlot>): Field
    requires i < |t.fields|
    decreases t, 0
  {
    var f := t.fields[i];
    if !f.active then f
    else
      match f.value
      case Child(one) =>
        f.(value := Child(one.(child :=
          if one.child.Some? then Some(SetTargets(one.child.value, id, items)) else None)))
      case Children(many) =>
        f.(value := Children(seq(|many|, j requires 0 <= j < |many| =>
            many[j].(child := if many[j].child.Some? then Some(SetTargets(many[j].child.value, id, items)) else None))))
      case _ => f
  }

  // ----- the SELECTs of a list

  /** The identities of the SELECTs in preorder. */
  function SelectIds(t: Tree): seq<nat> {
    Addrs(Selects(t))
  }

  function ListSelects(many: seq<MessageSlot>): seq<Message> {
    if many == [] then []
    else (if many[0].child.Some? then Selects(many[0].child.value) else []) + ListSelects(many[1..])
  }

  function ListIds(many: seq<MessageSlot>): seq<nat> {
    Addrs(ListSelects(many))
  }

  function FieldIds(t: Tree, i: nat): seq<nat>
    requires i < |t.fields|
  {
    Addrs(FieldMessages(HasTargetList, t, i))
  }

  function FromIds(t: Tree, i: nat): seq<nat>
    requires i <= |t.fields|
  {
    Addrs(MessagesFrom(HasTargetList, t, i))
  }

  lemma {:induction false} ItemSelects(t: Tree, many: seq<MessageSlot>, j: nat)
    requires j <= |many| && forall k | 0 <= k < |many| :: many[k] < t
    ensures ItemMessages(HasTargetList, t, many, j) == ListSelects(many[j..])
    decreases |many| - j
  {
    if j < |many| {
      ItemSelects(t, many, j + 1);
      assert many[j..][1..] == many[j + 1..];
    }
  }

  lemma ListSplit(many: seq<MessageSlot>)
    requires many != []
    ensures ListIds(many) == (if many[0].child.Some? then SelectIds(many[0].child.value) else []) + ListIds(many[1..])
  {
    AddrsJoin(if many[0].child.Some? then Selects(many[0].child.value) else [], ListSelects(many[1..]));
  }

  lemma FieldOfValue(t: Tree, i: nat)
    requires i < |t.fields| && t.fields[i].active
    ensures t.fields[i].value.Children? ==> FieldMessages(HasTargetList, t, i) == ListSelects(t.fields[i].value.many)
    ensures t.fields[i].value.Child? ==> FieldMessages(HasTargetList, t, i) == ListSelects([t.fields[i].value.one])
  {
    match t.fields[i].value {
      case Children(many) =>
        ItemSelects(t, many, 0);
        assert many[0..] == many;
      case Child(one) =>
        assert [one][1..] == [];
      case _ =>
    }
  }

  lemma FromSplit(t: Tree, i: nat)
    requires i < |t.fields|
    ensures FromIds(t, i) == FieldIds(t, i) + FromIds(t, i + 1)
  {
    AddrsJoin(FieldMessages(HasTargetList, t, i), MessagesFrom(HasTargetList, t, i + 1));
  }

  lemma SelfSplit(t: Tree)
    ensures SelectIds(t) == (if HasTargetList(t) then [t.id] else []) + FromIds(t, 0)
  {
    AddrsJoin(Own(HasTargetList, t), MessagesFrom(HasTargetList, t, 0));
  }

  /** Fields that are the same contribute the same. */
  lemma {:induction false} SameFrom(a: Tree, b: Tree, i: nat)
    requires i <= |a.fields| == |b.fields| && forall k | i <= k < |a.fields| :: a.fields[k] == b.fields[k]
    ensures FromIds(a, i) == FromIds(b, i)
    decreases |a.fields| - i
  {
    if i < |a.fields| {
      SameFrom(a, b, i + 1);
      FromSplit(a, i);
      FromSplit(b, i);
      if a.fields[i].active {
        FieldOfValue(a, i);
        FieldOfValue(b, i);
      }
    }
  }

  // ----- an edit elsewhere

  lemma {:induction false} Untouched(t: Tree, id: nat, items: seq<MessageSlot>)
    requires id !in SelectIds(t)
    ensures SetTargets(t, id, items) == t
    decreases t, 2
  {
    SelfSplit(t);
    UntouchedFrom(t, id, items, 0);
    assert t.fields == SetTargets(t, id, items).fields;
  }

  lemma {:induction false} UntouchedFrom(t: Tree, id: nat, items: seq<MessageSlot>, i: nat)
    requires i <= |t.fields| && id !in FromIds(t, i)
    ensures forall k | i <= k < |t.fields| :: SetField(t, k, id, items) == t.fields[k]
    decreases t, 1, |t.fields| - i
  {
    if i < |t.fields| {
      FromSplit(t, i);
      UntouchedField(t, id, items, i);
      UntouchedFrom(t, id, items, i + 1);
    }
  }

  lemma {:induction false} UntouchedField(t: Tree, id: nat, items: seq<MessageSlot>, i: nat)
    requires i < |t.fields| && id !in FieldIds(t, i)
    ensures SetField(t, i, id, items) == t.fields[i]
    decreases t, 0, 1
  {
    if t.fields[i].active {
      FieldOfValue(t, i);
      match t.fields[i].value {
        case Child(one) =>
          if one.child.Some? {
            assert FieldIds(t, i) == SelectIds(one.child.value);
            Untouched(one.child.value, id, items);
          }
        case Children(many) =>
          UntouchedList(t, many, id, items);
          assert many == SetField(t, i, id, items).value.many;
        case _ =>
      }
    }
  }

  lemma {:induction false} UntouchedList(t: Tree, many: seq<MessageSlot>, id: nat, items: seq<MessageSlot>)
    requires (forall k | 0 <= k < |many| :: many[k] < t) && id !in ListIds(many)
    ensures forall k | 0 <= k < |many| && many[k].child.Some? ::
              SetTargets(many[k].child.value, id, items) == many[k].child.value
    decreases t, 0, 0, |many|
  {
    if many != [] {
      ListSplit(many);
      if many[0].child.Some? {
        Untouched(many[0].child.value, id, items);
      }
      UntouchedList(t, many[1..], id, items);
      assert forall k | 1 <= k < |many| :: many[k] == many[1..][k - 1];
    }
  }

  // ----- an edit of one target list

  /** What the fields in front of a target list contribute. */
  function BeforeIds(t: Tree, n: nat): seq<nat>
    requires n <= |t.fields|
  {
    if n == 0 then [] else BeforeIds(t, n - 1) + FieldIds(t, n - 1)
  }

  /** Where the nested SELECTs of the target list start, counted from the SELECT itself. */
  function TargetsStart(select: Tree): nat
    requires HasTargetList(select)
  {
    1 + |BeforeIds(select, TargetField(select))|
  }

  function OldTargets(select: Tree): seq<MessageSlot> {
    GetMany(select, "target_list")
  }

  /** One change of an enumeration: behind an entry, at some distance, some
      entries give way to others. */
  datatype Change = Change(offset: nat, removed: seq<nat>, added: seq<nat>)

  /** The SELECTs nested in the old target list give way to those in the new one. */
  function ChangeOf(select: Tree, items: seq<MessageSlot>): Change
    requires HasTargetList(select)
  {
    Change(TargetsStart(select), ListIds(OldTargets(select)), ListIds(items))
  }

  ghost predicate Cut(before: seq<nat>, after: seq<nat>, k: nat, c: Change) {
    var at := k + c.offset;
    && at + |c.removed| <= |before|
    && before[at..at + |c.removed|] == c.removed
    && after == Spliced(before, at, |c.removed|, c.added)
  }

  lemma JoinLeft(a: seq<nat>, a': seq<nat>, b: seq<nat>, k: nat, c: Change)
    requires Cut(a, a', k, c)
    ensures Cut(a + b, a' + b, k, c)
  {
    var at, n := k + c.offset, |c.removed|;
    SplicedLeft(a, b, at, n, c.added);
    assert (a + b)[at..at + n] == a[at..at + n];
  }

  lemma JoinRight(a: seq<nat>, b: seq<nat>, b': seq<nat>, k: nat, c: Change)
    requires k >= |a| && Cut(b, b', k - |a|, c)
    ensures Cut(a + b, a + b', k, c)
  {
    var at, n := k - |a| + c.offset, |c.removed|;
    SplicedRight(a, b, |a| + at, n, c.added);
    assert (a + b)[|a| + at..|a| + at + n] == b[at..at + n];
  }

  lemma {:induction false} BeforeSplit(t: Tree, n: nat)
    requires n <= |t.fields|
    ensures FromIds(t, 0) == BeforeIds(t, n) + FromIds(t, n)
  {
    hide FromIds, FieldIds;
    if n > 0 {
      BeforeSplit(t, n - 1);
      FromSplit(t, n - 1);
      Associative(BeforeIds(t, n - 1), FieldIds(t, n - 1), FromIds(t, n));
    } else {
      NoneBefore(t);
    }
  }

  lemma NoneBefore(t: Tree)
    ensures BeforeIds(t, 0) + FromIds(t, 0) == FromIds(t, 0)
  {
  }

  lemma {:induction false} SameBefore(a: Tree, b: Tree, n: nat)
    requires n <= |a.fields| == |b.fields| && forall i | 0 <= i < n :: a.fields[i] == b.fields[i]
    ensures BeforeIds(a, n) == BeforeIds(b, n)
  {
    if n > 0 {
      SameBefore(a, b, n - 1);
      if a.fields[n - 1].active {
        FieldOfValue(a, n - 1);
        FieldOfValue(b, n - 1);
      }
    }
  }

  lemma {:induction false} SameNames(a: Tree, b: Tree, name: string, from: nat)
    requires from <= |a.fields| == |b.fields| && forall i | 0 <= i < |a.fields| :: a.fields[i].name == b.fields[i].name
    ensures FieldIndex(a, name, from) == FieldIndex(b, name, from)
    decreases |a.fields| - from
  {
    if from < |a.fields| {
      SameNames(a, b, name, from + 1);
    }
  }

  lemma SelectParts(s: Tree)
    requires HasTargetList(s) && s.fields[TargetField(s)].active
    ensures SelectIds(s)
         == [s.id] + (BeforeIds(s, TargetField(s)) + (ListIds(OldTargets(s)) + FromIds(s, TargetField(s) + 1)))
  {
    var n := TargetField(s);
    SelfSplit(s);
    BeforeSplit(s, n);
    FromSplit(s, n);
    FieldOfValue(s, n);
  }

  lemma SameSelect(s: Tree, items: seq<MessageSlot>)
    requires HasTargetList(s) && items != []
    ensures var u := WithTargets(s, items);
            && HasTargetList(u) && TargetField(u) == TargetField(s)
            && OldTargets(u) == items && |u.fields| == |s.fields|
            && BeforeIds(u, TargetField(s)) == BeforeIds(s, TargetField(s))
            && FromIds(u, TargetField(s) + 1) == FromIds(s, TargetField(s) + 1)
  {
    hide BeforeIds, FromIds;
    var n, u := TargetField(s), WithTargets(s, items);
    SameNames(s, u, "target_list", 0);
    SameBefore(s, u, n);
    SameFrom(s, u, n + 1);
  }

  lemma SelfCut(s: Tree, items: seq<MessageSlot>)
    requires HasTargetList(s) && s.fields[TargetField(s)].active && items != []
    ensures Cut(SelectIds(s), SelectIds(WithTargets(s, items)), 0, ChangeOf(s, items))
  {
    var n, u := TargetField(s), WithTargets(s, items);
    SameSelect(s, items);
    SelectParts(s);
    SelectParts(u);
    var b, r, i, c := BeforeIds(s, n), ListIds(OldTargets(s)), ListIds(items), FromIds(s, n + 1);
    PartsCut([s.id], b, r, i, c);
    assert SelectIds(s) == [s.id] + (b + (r + c)) && SelectIds(u) == [s.id] + (b + (i + c));
  }

  lemma PartsCut(x: seq<nat>, b: seq<nat>, r: seq<nat>, i: seq<nat>, c: seq<nat>)
    ensures Cut(x + (b + (r + c)), x + (b + (i + c)), 0, Change(|x| + |b|, r, i))
  {
    var s, at := x + (b + (r + c)), |x| + |b|;
    assert s[..at] == x + b && s[at + |r|..] == c;
    assert s[at..at + |r|] == r;
  }

  /** The one place of an identity in an enumeration. */
  ghost predicate OnlyAt(hits: seq<Message>, k: nat, id: nat, select: Tree) {
    && k < |hits| && hits[k] == Hit(id, select)
    && forall j | 0 <= j < |hits| && j != k :: hits[j].addr != id
  }

  lemma OnlyLeft(a: seq<Message>, b: seq<Message>, k: nat, id: nat, select: Tree)
    requires OnlyAt(a + b, k, id, select) && k < |a|
    ensures OnlyAt(a, k, id, select) && id !in Addrs(b)
  {
    assert forall j | 0 <= j < |a| :: (a + b)[j] == a[j];
    assert forall j | 0 <= j < |b| :: (a + b)[|a| + j] == b[j];
    AddrsLack(b, id);
  }

  lemma OnlyRight(a: seq<Message>, b: seq<Message>, k: nat, id: nat, select: Tree)
    requires OnlyAt(a + b, k, id, select) && k >= |a|
    ensures OnlyAt(b, k - |a|, id, select) && id !in Addrs(a)
  {
    assert forall j | 0 <= j < |a| :: (a + b)[j] == a[j];
    assert forall j | 0 <= j < |b| :: (a + b)[|a| + j] == b[j];
    AddrsLack(a, id);
  }

  /** The fields' cut is the message's cut. */
  lemma SelfJoin(t: Tree, u: Tree, k: nat, c: Change)
    requires u.id == t.id && (HasTargetList(u) <==> HasTargetList(t)) && k >= |Own(HasTargetList, t)|
    requires Cut(FromIds(t, 0), FromIds(u, 0), k - |Own(HasTargetList, t)|, c)
    ensures Cut(SelectIds(t), SelectIds(u), k, c)
  {
    SelfSplit(t);
    SelfSplit(u);
    var own := if HasTargetList(t) then [t.id] else [];
    assert |own| == |Own(HasTargetList, t)|;
    hide Cut, SelectIds, FromIds, HasTargetList;
    JoinRight(own, FromIds(t, 0), FromIds(u, 0), k, c);
  }

  /** The fields are cut where the field with the identity is. */
  lemma FromJoin(t: Tree, u: Tree, i: nat, k: nat, c: Change)
    requires i < |t.fields| == |u.fields|
    requires k < |FieldIds(t, i)|
      ==> Cut(FieldIds(t, i), FieldIds(u, i), k, c) && FromIds(u, i + 1) == FromIds(t, i + 1)
    requires k >= |FieldIds(t, i)|
      ==> FieldIds(u, i) == FieldIds(t, i) && Cut(FromIds(t, i + 1), FromIds(u, i + 1), k - |FieldIds(t, i)|, c)
    ensures Cut(FromIds(t, i), FromIds(u, i), k, c)
  {
    hide Cut, FromIds, FieldIds;
    FromSplit(t, i);
    FromSplit(u, i);
    if k < |FieldIds(t, i)| {
      JoinLeft(FieldIds(t, i), FieldIds(u, i), FromIds(t, i + 1), k, c);
    } else {
      JoinRight(FieldIds(t, i), FromIds(t, i + 1), FromIds(u, i + 1), k, c);
    }
  }

  /** The list is cut where the item with the identity is. */
  lemma ListJoin(first: seq<nat>, rest: seq<nat>, first': seq<nat>, rest': seq<nat>, k: nat, c: Change)
    requires k < |first| ==> Cut(first, first', k, c) && rest' == rest
    requires k >= |first| ==> first' == first && Cut(rest, rest', k - |first|, c)
    ensures Cut(first + rest, first' + rest', k, c)
  {
    hide Cut;
    if k < |first| {
      JoinLeft(first, first', rest, k, c);
    } else {
      JoinRight(first, rest, rest', k, c);
    }
  }

  /** A SELECT whose target list is about to get other, at least one, items. */
  ghost predicate Editable(select: Tree, items: seq<MessageSlot>, c: Change) {
    HasTargetList(select) && select.fields[TargetField(select)].active && items != [] && c == ChangeOf(select, items)
  }

  /** Editing the target list at ordinal k is one splice of the enumeration, behind
      the SELECT itself and everything scanned before its target list. */
  lemma {:induction false} EditIsOneCut(t: Tree, k: nat, id: nat, select: Tree, items: seq<MessageSlot>, c: Change)
    requires OnlyAt(Selects(t), k, id, select) && Editable(select, items, c)
    ensures Cut(SelectIds(t), SelectIds(SetTargets(t, id, items)), k, c)
    decreases t, 3, 0
  {
    if HasTargetList(t) && t.id == id {
      assert Selects(t)[0] == Hit(id, t);
      SelfCut(t, items);
    } else {
      OtherCut(t, SetTargets(t, id, items), k, id, select, items, c);
    }
  }

  lemma {:induction false} OtherCut(t: Tree, u: Tree, k: nat, id: nat, select: Tree, items: seq<MessageSlot>, c: Change)
    requires OnlyAt(Selects(t), k, id, select) && Editable(select, items, c)
    requires !(HasTargetList(t) && t.id == id) && u == SetTargets(t, id, items)
    ensures Cut(SelectIds(t), SelectIds(u), k, c)
    decreases t, 2, |t.fields| + 1
  {
    hide Cut, Editable, OnlyAt, HasTargetList, SetTargets, SetField, Messages, MessagesFrom, Own, FromIds, Selects,
         SelectIds, FieldIndex, ListIds, BeforeIds;
    var own, below := Own(HasTargetList, t), MessagesFrom(HasTargetList, t, 0);
    SameKind(t, id, items);
    SelfAhead(t, k, id, select);
    EditedFields(t, u, id, items);
    OnlyRight(own, below, k, id, select);
    FromCut(t, u, 0, k - |own|, id, select, items, c);
    SelfJoin(t, u, k, c);
  }

  lemma SelfAhead(t: Tree, k: nat, id: nat, select: Tree)
    requires OnlyAt(Selects(t), k, id, select) && !(HasTargetList(t) && t.id == id)
    ensures Selects(t) == Own(HasTargetList, t) + MessagesFrom(HasTargetList, t, 0) && k >= |Own(HasTargetList, t)|
  {
    assert Selects(t) == Own(HasTargetList, t) + MessagesFrom(HasTargetList, t, 0);
  }

  lemma EditedFields(t: Tree, u: Tree, id: nat, items: seq<MessageSlot>)
    requires !(HasTargetList(t) && t.id == id) && u == SetTargets(t, id, items)
    ensures u.id == t.id && |t.fields| == |u.fields|
    ensures forall j | 0 <= j < |t.fields| :: u.fields[j] == SetField(t, j, id, items)
  {
  }

  lemma SameKind(t: Tree, id: nat, items: seq<MessageSlot>)
    requires !(HasTargetList(t) && t.id == id)
    ensures HasTargetList(SetTargets(t, id, items)) <==> HasTargetList(t)
  {
    var u, n := SetTargets(t, id, items), TargetField(t);
    assert forall i | 0 <= i < |t.fields| :: u.fields[i] == SetField(t, i, id, items);
    SameNames(t, u, "target_list", 0);
    if n < |t.fields| {
      assert u.fields[n] == SetField(t, n, id, items);
    }
  }

  lemma {:induction false} FromCut(t: Tree, u: Tree, i: nat, k: nat, id: nat, select: Tree, items: seq<MessageSlot>,
                                   c: Change)
    requires i <= |t.fields| == |u.fields|
    requires forall j | 0 <= j < |t.fields| :: u.fields[j] == SetField(t, j, id, items)
    requires OnlyAt(MessagesFrom(HasTargetList, t, i), k, id, select) && Editable(select, items, c)
    ensures Cut(FromIds(t, i), FromIds(u, i), k, c)
    decreases t, 2, |t.fields| - i
  {
    hide Cut, Editable, OnlyAt, HasTargetList, SetField, MessagesFrom, FieldMessages, FieldIds, FromIds, FieldIndex;
    FromChunks(t, i, k, id, select);
    var here, rest := FieldMessages(HasTargetList, t, i), MessagesFrom(HasTargetList, t, i + 1);
    if k < |here| {
      OnlyLeft(here, rest, k, id, select);
      FieldCut(t, u, i, k, id, select, items, c);
      RestUntouched(t, u, id, items, i + 1);
    } else {
      OnlyRight(here, rest, k, id, select);
      FromCut(t, u, i + 1, k - |here|, id, select, items, c);
      FieldUntouched(t, u, id, items, i);
    }
    FromJoin(t, u, i, k, c);
  }

  lemma FromChunks(t: Tree, i: nat, k: nat, id: nat, select: Tree)
    requires i <= |t.fields| && OnlyAt(MessagesFrom(HasTargetList, t, i), k, id, select)
    ensures i < |t.fields| && |FieldIds(t, i)| == |FieldMessages(HasTargetList, t, i)|
    ensures MessagesFrom(HasTargetList, t, i)
         == FieldMessages(HasTargetList, t, i) + MessagesFrom(HasTargetList, t, i + 1)
  {
  }

  lemma RestUntouched(t: Tree, u: Tree, id: nat, items: seq<MessageSlot>, i: nat)
    requires i <= |t.fields| == |u.fields|
    requires forall j | 0 <= j < |t.fields| :: u.fields[j] == SetField(t, j, id, items)
    requires id !in Addrs(MessagesFrom(HasTargetList, t, i))
    ensures FromIds(u, i) == FromIds(t, i)
  {
    UntouchedFrom(t, id, items, i);
    SameFrom(t, u, i);
  }

  lemma FieldUntouched(t: Tree, u: Tree, id: nat, items: seq<MessageSlot>, i: nat)
    requires i < |t.fields| == |u.fields| && u.fields[i] == SetField(t, i, id, items)
    requires id !in Addrs(FieldMessages(HasTargetList, t, i))
    ensures FieldIds(u, i) == FieldIds(t, i)
  {
    UntouchedField(t, id, items, i);
    if t.fields[i].active {
      FieldOfValue(t, i);
      FieldOfValue(u, i);
    }
  }

  lemma {:induction false} FieldCut(t: Tree, u: Tree, i: nat, k: nat, id: nat, select: Tree, items: seq<MessageSlot>,
                                    c: Change)
    requires i < |t.fields| == |u.fields| && u.fields[i] == SetField(t, i, id, items)
    requires OnlyAt(FieldMessages(HasTargetList, t, i), k, id, select) && Editable(select, items, c)
    ensures Cut(FieldIds(t, i), FieldIds(u, i), k, c)
    decreases t, 1, 0
  {
    FieldOfValue(t, i);
    FieldOfValue(u, i);
    match t.fields[i].value {
      case Child(one) => EditIsOneCut(one.child.value, k, id, select, items, c);
      case Children(many) => ListCut(t, many, u.fields[i].value.many, k, id, select, items, c);
    }
  }

  ghost predicate Edits(many: seq<MessageSlot>, edited: seq<MessageSlot>, id: nat, items: seq<MessageSlot>) {
    && |edited| == |many|
    && forall j | 0 <= j < |many| :: edited[j] == many[j].(child :=
         if many[j].child.Some? then Some(SetTargets(many[j].child.value, id, items)) else None)
  }

  function FirstSelects(many: seq<MessageSlot>): seq<Message>
    requires many != []
  {
    if many[0].child.Some? then Selects(many[0].child.value) else []
  }

  lemma ListChunks(many: seq<MessageSlot>, edited: seq<MessageSlot>, id: nat, items: seq<MessageSlot>)
    requires many != [] && Edits(many, edited, id, items)
    ensures ListSelects(many) == FirstSelects(many) + ListSelects(many[1..])
    ensures ListIds(many) == Addrs(FirstSelects(many)) + ListIds(many[1..])
    ensures ListIds(many[1..]) == Addrs(ListSelects(many[1..]))
    ensures |Addrs(FirstSelects(many))| == |FirstSelects(many)|
    ensures ListIds(edited) == Addrs(FirstSelects(edited)) + ListIds(edited[1..])
    ensures |edited| == |many| && Edits(many[1..], edited[1..], id, items)
  {
    ListSplit(many);
    ListSplit(edited);
  }

  lemma {:induction false} FirstCut(t: Tree, many: seq<MessageSlot>, edited: seq<MessageSlot>, k: nat, id: nat,
                                    select: Tree, items: seq<MessageSlot>, c: Change)
    requires many != [] && many[0] < t && Edits(many, edited, id, items)
    requires OnlyAt(FirstSelects(many), k, id, select) && Editable(select, items, c)
    ensures Cut(Addrs(FirstSelects(many)), Addrs(FirstSelects(edited)), k, c)
    decreases t, 0, 0
  {
    EditIsOneCut(many[0].child.value, k, id, select, items, c);
  }

  lemma SomeItem(many: seq<MessageSlot>, k: nat, id: nat, select: Tree)
    requires OnlyAt(ListSelects(many), k, id, select)
    ensures many != []
  {
  }

  lemma {:induction false} ListCut(t: Tree, many: seq<MessageSlot>, edited: seq<MessageSlot>, k: nat, id: nat,
                                   select: Tree, items: seq<MessageSlot>, c: Change)
    requires (forall j | 0 <= j < |many| :: many[j] < t) && Edits(many, edited, id, items)
    requires OnlyAt(ListSelects(many), k, id, select) && Editable(select, items, c)
    ensures Cut(ListIds(many), ListIds(edited), k, c)
    decreases t, 0, |many|
  {
    hide Cut, Editable, OnlyAt, HasTargetList, Edits, FirstSelects, ListSelects, ListIds, SetTargets, FieldIndex;
    SomeItem(many, k, id, select);
    var first, rest := FirstSelects(many), ListSelects(many[1..]);
    ListChunks(many, edited, id, items);
    if k < |first| {
      OnlyLeft(first, rest, k, id, select);
      FirstCut(t, many, edited, k, id, select, items, c);
      TailUntouched(t, many[1..], edited[1..], id, items);
    } else {
      OnlyRight(first, rest, k, id, select);
      ListCut(t, many[1..], edited[1..], k - |first|, id, select, items, c);
      HeadUntouched(many, edited, id, items);
    }
    ListJoin(Addrs(first), ListIds(many[1..]), Addrs(FirstSelects(edited)), ListIds(edited[1..]), k, c);
  }

  lemma HeadUntouched(many: seq<MessageSlot>, edited: seq<MessageSlot>, id: nat, items: seq<MessageSlot>)
    requires many != [] && Edits(many, edited, id, items) && id !in Addrs(FirstSelects(many))
    ensures Addrs(FirstSelects(edited)) == Addrs(FirstSelects(many))
  {
    if many[0].child.Some? {
      Untouched(many[0].child.value, id, items);
    }
  }

  lemma TailUntouched(t: Tree, many: seq<MessageSlot>, edited: seq<MessageSlot>, id: nat, items: seq<MessageSlot>)
    requires (forall j | 0 <= j < |many| :: many[j] < t) && Edits(many, edited, id, items)
    requires id !in Addrs(ListSelects(many))
    ensures ListIds(edited) == ListIds(many)
  {
    UntouchedList(t, many, id, items);
    assert edited == many;
  }

  // ----- editing the same SELECT again

  lemma {:induction false} EditAgain(t: Tree, id: nat, first: seq<MessageSlot>, items: seq<MessageSlot>)
    requires first != []
    ensures SetTargets(SetTargets(t, id, first), id, items) == SetTargets(t, id, items)
    decreases t, 1
  {
    var u := SetTargets(t, id, first);
    if HasTargetList(t) && t.id == id {
      SameNames(t, u, "target_list", 0);
    } else {
      SameKind(t, id, first);
      forall i | 0 <= i < |t.fields|
        ensures i < |u.fields| && SetField(u, i, id, items) == SetField(t, i, id, items)
      {
        EditFieldAgain(t, u, i, id, first, items);
      }
      assert SetTargets(u, id, items).fields == SetTargets(t, id, items).fields;
    }
  }

  lemma {:induction false} EditFieldAgain(t: Tree, u: Tree, i: nat, id: nat, first: seq<MessageSlot>,
                                          items: seq<MessageSlot>)
    requires i < |t.fields| == |u.fields| && u.fields[i] == SetField(t, i, id, first) && first != []
    ensures SetField(u, i, id, items) == SetField(t, i, id, items)
    decreases t, 0
  {
    if t.fields[i].active {
      match t.fields[i].value {
        case Child(one) =>
          if one.child.Some? {
            EditAgain(one.child.value, id, first, items);
          }
        case Children(many) =>
          forall j | 0 <= j < |many| && many[j].child.Some?
            ensures SetTargets(SetTargets(many[j].child.value, id, first), id, items)
                 == SetTargets(many[j].child.value, id, items)
          {
            EditAgain(many[j].child.value, id, first, items);
          }
          assert SetField(u, i, id, items).value.many == SetField(t, i, id, items).value.many;
        case _ =>
      }
    }
  }

  // ----- ordinals

  /** A repeated field is never one of several alternatives. */
  predicate TargetsActive(s: Tree) {
    TargetField(s) < |s.fields| ==> s.fields[TargetField(s)].active
  }

  /** What a cut means place by place. */
  ghost predicate Shifted(before: seq<nat>, after: seq<nat>, at: nat, gone: nat, added: seq<nat>) {
    && at + gone <= |before| && |after| == |before| - gone + |added|
    && (forall j | 0 <= j < at :: after[j] == before[j])
    && (forall j | 0 <= j < |added| :: after[at + j] == added[j])
    && (forall j | at + gone <= j < |before| :: after[j - gone + |added|] == before[j])
  }

  lemma CutShifts(before: seq<nat>, after: seq<nat>, k: nat, c: Change)
    requires Cut(before, after, k, c)
    ensures Shifted(before, after, k + c.offset, |c.removed|, c.added)
  {
    var at, gone := k + c.offset, |c.removed|;
    var tail := before[at + gone..];
    ThreeLengths(before[..at], c.added, tail, after);
    forall j | 0 <= j < at
      ensures after[j] == before[j]
    {
      InFirst(before[..at], c.added, tail, j);
    }
    forall j | 0 <= j < |c.added|
      ensures after[at + j] == c.added[j]
    {
      InSecond(before[..at], c.added, tail, j);
    }
    forall j | at + gone <= j < |before|
      ensures after[j - gone + |c.added|] == before[j]
    {
      InThird(before[..at], c.added, tail, j - at - gone);
    }
  }

  lemma ThreeLengths(a: seq<nat>, b: seq<nat>, c: seq<nat>, s: seq<nat>)
    requires s == a + b + c
    ensures |s| == |a| + |b| + |c|
  {
  }

  lemma InFirst(a: seq<nat>, b: seq<nat>, c: seq<nat>, j: nat)
    requires j < |a|
    ensures (a + b + c)[j] == a[j]
  {
  }

  lemma InSecond(a: seq<nat>, b: seq<nat>, c: seq<nat>, j: nat)
    requires j < |b|
    ensures (a + b + c)[|a| + j] == b[j]
  {
  }

  lemma InThird(a: seq<nat>, b: seq<nat>, c: seq<nat>, j: nat)
    requires j < |c|
    ensures (a + b + c)[|a| + |b| + j] == c[j]
  {
  }

  /** What the ordinals resolve to after the edit of the target list at ordinal k:
      up to and including k, and through everything scanned before the target
      list, the same SELECTs as before; then the SELECTs nested in the new list;
      then those that stood behind the old one, shifted by the difference. */
  lemma OrdinalsAfterEdit(t: Tree, k: nat, items: seq<MessageSlot>)
    requires DistinctAddrs(Selects(t)) && k < |Selects(t)| && items != []
    requires TargetsActive(Selects(t)[k].info)
    ensures var s := Selects(t)[k].info;
            && HasTargetList(s)
            && Shifted(SelectIds(t), SelectIds(SetTargets(t, s.id, items)), k + TargetsStart(s),
                       |ListIds(OldTargets(s))|, ListIds(items))
  {
    hide DistinctAddrs, OnlyAt, Editable, Cut, Shifted, HasTargetList, FieldIndex, SetTargets, Messages, Addrs,
         SelectIds,
         ListIds, BeforeIds, GetMany, Selects;
    var s := Selects(t)[k].info;
    SelectsAreAccepted(t, k);
    OnlyOne(Selects(t), k);
    NowEditable(s, items);
    EditIsOneCut(t, k, s.id, s, items, ChangeOf(s, items));
    CutShifts(SelectIds(t), SelectIds(SetTargets(t, s.id, items)), k, ChangeOf(s, items));
  }

  lemma NowEditable(s: Tree, items: seq<MessageSlot>)
    requires HasTargetList(s) && TargetsActive(s) && items != []
    ensures Editable(s, items, ChangeOf(s, items))
  {
  }

  lemma OnlyOne(hits: seq<Message>, k: nat)
    requires DistinctAddrs(hits) && k < |hits|
    ensures OnlyAt(hits, k, hits[k].addr, hits[k].info)
  {
  }

  lemma {:induction false} SelectsAreAccepted(t: Tree, k: nat)
    requires k < |Selects(t)|
    ensures HasTargetList(Selects(t)[k].info) && Selects(t)[k].addr == Selects(t)[k].info.id
    decreases t, 3, 0
  {
    var own := Own(HasTargetList, t);
    if k >= |own| {
      FromAccepted(t, 0, k - |own|);
    }
  }

  lemma {:induction false} FromAccepted(t: Tree, i: nat, k: nat)
    requires i <= |t.fields| && k < |MessagesFrom(HasTargetList, t, i)|
    ensures var h := MessagesFrom(HasTargetList, t, i)[k]; HasTargetList(h.info) && h.addr == h.info.id
    decreases t, 2, |t.fields| - i
  {
    var here := FieldMessages(HasTargetList, t, i);
    if k < |here| {
      FieldOfValue(t, i);
      match t.fields[i].value {
        case Child(one) => SelectsAreAccepted(one.child.value, k);
        case Children(many) => ListAccepted(t, many, k);
      }
    } else {
      FromAccepted(t, i + 1, k - |here|);
    }
  }

  lemma ListHead(many: seq<MessageSlot>, k: nat)
    requires k < |ListSelects(many)|
    ensures many != [] && ListSelects(many) == FirstSelects(many) + ListSelects(many[1..])
    ensures k < |FirstSelects(many)| ==> many[0].child.Some? && FirstSelects(many) == Selects(many[0].child.value)
  {
  }

  lemma {:induction false} ListAccepted(t: Tree, many: seq<MessageSlot>, k: nat)
    requires (forall j | 0 <= j < |many| :: many[j] < t) && k < |ListSelects(many)|
    ensures var h := ListSelects(many)[k]; HasTargetList(h.info) && h.addr == h.info.id
    decreases t, 1, |many|
  {
    hide HasTargetList, ListSelects, FieldIndex;
    ListHead(many, k);
    var first := FirstSelects(many);
    if k < |first| {
      SelectsAreAccepted(many[0].child.value, k);
    } else {
      ListAccepted(t, many[1..], k - |first|);
    }
  }
}

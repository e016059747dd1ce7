/** The numbering of all string slots of a statement, and where the names sit in it. */
module StringWalk {
  import opened Wrappers
  import opened Sequences
  import opened AstTree
  import opened OrdinalSearch
  import NameWalk

  type Str = Hit<Option<string>>

  // ----- the reference enumeration

  function Slot(s: StringSlot): Str {
    Hit(s.addr, s.text)
  }

  function Slots(slots: seq<StringSlot>, j: nat): seq<Str>
    requires j <= |slots|
    decreases |slots| - j
  {
    if j == |slots| then [] else [Slot(slots[j])] + Slots(slots, j + 1)
  }

  /** All string slots below a message, NULL strings too, in schema order. */
  function Strings(t: Tree): seq<Str>
    decreases t, 3, 0
  {
    StringsFrom(t, 0)
  }

  function StringsFrom(t: Tree, i: nat): seq<Str>
    requires i <= |t.fields|
    decreases t, 2, |t.fields| - i
  {
    if i == |t.fields| then [] else FieldStrings(t, i) + StringsFrom(t, i + 1)
  }

  /** A repeated field without an array has no slots, whatever its count. */
  function FieldStrings(t: Tree, i: nat): seq<Str>
    requires i < |t.fields|
    decreases t, 1, 0
  {
    if !t.fields[i].active then []
    else
      match t.fields[i].value
      case Text(slot) => [Slot(slot)]
      case Texts(slots) => Slots(slots, 0)
      case Child(one) => if one.child.Some? then Strings(one.child.value) else []
      case Children(many) => ItemStrings(t, many, 0)
      case _ => []
  }

  function ItemStrings(t: Tree, many: seq<MessageSlot>, j: nat): seq<Str>
    requires j <= |many| && forall k | 0 <= k < |many| :: many[k] < t
    decreases t, 0, |many| - j
  {
    if j == |many| then []
    else (if many[j].child.Some? then Strings(many[j].child.value) else []) + ItemStrings(t, many, j + 1)
  }

  // ----- the walker

  /** This walker leaves as soon as it has a target, whatever it looks for. */
  predicate Eager(m: Mode) {
    m.matchAddr.Some? ==> m.exitOnMatch
  }

  method RecordSlot(s: StringSlot, search: Search<Option<string>>)
    requires !search.Over()
    modifies search
    ensures search.State() == Run(search.mode, old(search.State()), [Slot(s)])
  {
    RunOne(search.mode, search.State(), Slot(s));
    search.Record(Slot(s));
  }

  /** Numbers the string slots of a message. */
  method Walk(t: Tree, search: Search<Option<string>>)
    requires Eager(search.mode)
    modifies search
    ensures search.State() == Run(search.mode, old(search.State()), Strings(t))
    decreases t, 2
  {
    if search.Over() {
      RunFinished(search.mode, search.State(), Strings(t));
      return;
    }
    for i := 0 to |t.fields|
      invariant !search.Over()
      invariant Run(search.mode, search.State(), StringsFrom(t, i)) == Run(search.mode, old(search.State()), Strings(t))
    {
      ghost var before := search.State();
      if t.fields[i].active {
        WalkField(t, i, search);
      }
      RunJoin(search.mode, before, FieldStrings(t, i), StringsFrom(t, i + 1));
      if search.Over() {
        return;
      }
    }
  }

  method WalkField(t: Tree, i: nat, search: Search<Option<string>>)
    requires Eager(search.mode) && !search.Over() && i < |t.fields| && t.fields[i].active
    modifies search
    ensures search.State() == Run(search.mode, old(search.State()), FieldStrings(t, i))
    decreases t, 1
  {
    match t.fields[i].value {
      case Text(slot) => RecordSlot(slot, search);
      case Texts(slots) => WalkSlots(slots, search);
      case Child(one) =>
        if one.child.Some? {
          Walk(one.child.value, search);
        }
      case Children(many) => WalkItems(t, many, search);
      case _ =>
    }
  }

  method WalkSlots(slots: seq<StringSlot>, search: Search<Option<string>>)
    requires !search.Over()
    modifies search
    ensures search.State() == Run(search.mode, old(search.State()), Slots(slots, 0))
  {
    for j := 0 to |slots|
      invariant !search.Over()
      invariant Run(search.mode, search.State(), Slots(slots, j))
           == Run(search.mode, old(search.State()), Slots(slots, 0))
    {
      ghost var before := search.State();
      RecordSlot(slots[j], search);
      RunJoin(search.mode, before, [Slot(slots[j])], Slots(slots, j + 1));
      if search.Over() {
        return;
      }
    }
  }

  method WalkItems(t: Tree, many: seq<MessageSlot>, search: Search<Option<string>>)
    requires Eager(search.mode) && !search.Over() && forall k | 0 <= k < |many| :: many[k] < t
    modifies search
    ensures search.State() == Run(search.mode, old(search.State()), ItemStrings(t, many, 0))
    decreases t, 0
  {
    for j := 0 to |many|
      invariant !search.Over()
      invariant Run(search.mode, search.State(), ItemStrings(t, many, j))
             == Run(search.mode, old(search.State()), ItemStrings(t, many, 0))
    {
      if many[j].child.Some? {
        ghost var before := search.State();
        Walk(many[j].child.value, search);
        RunJoin(search.mode, before, Strings(many[j].child.value), ItemStrings(t, many, j + 1));
        if search.Over() {
          return;
        }
      } else {
        assert ItemStrings(t, many, j) == ItemStrings(t, many, j + 1);
      }
    }
  }

  // ----- the public searches

  method SlotByIndex(statement: Tree, index: nat) returns (status: Status, slot: Option<Str>)
    ensures status == if index < |Strings(statement)| then Ok else InvalidArgument
    ensures slot == if index < |Strings(statement)| then Some(Strings(statement)[index]) else None
  {
    var search := new Search<Option<string>>(BY_INDEX, index);
    Walk(statement, search);
    IndexFinds(Start(index), Strings(statement));
    slot := search.target;
    status := if slot.Some? then Ok else InvalidArgument;
  }

  /** The index found for a slot is where that slot first stands in the enumeration. */
  method IndexBySlot(statement: Tree, addr: nat) returns (status: Status, index: nat)
    ensures status == Ok || status == InvalidArgument
    ensures status == Ok <==> exists i | 0 <= i < |Strings(statement)| :: Strings(statement)[i].addr == addr
    ensures status == Ok ==> && index < |Strings(statement)| && Strings(statement)[index].addr == addr
                             && forall i | 0 <= i < index :: Strings(statement)[i].addr != addr
  {
    var search := new Search<Option<string>>(ByAddr(addr, true), 0);
    Walk(statement, search);
    FirstMatch(addr, Start(0), Strings(statement));
    if search.target.None? {
      return InvalidArgument, 0;
    }
    return Ok, search.targetIndex;
  }

  lemma {:induction false} FirstMatch(addr: nat, p: Progress<Option<string>>, all: seq<Str>)
    requires p.target == None
    ensures var r := Run(ByAddr(addr, true), p, all);
            if r.target.Some?
            then && p.seen <= r.targetIndex < p.seen + |all| && all[r.targetIndex - p.seen].addr == addr
                 && forall i | 0 <= i < r.targetIndex - p.seen :: all[i].addr != addr
            else forall i | 0 <= i < |all| :: all[i].addr != addr
    decreases |all|
  {
    if all != [] {
      var m := ByAddr(addr, true);
      var next := Recorded(m, p, all[0]);
      if all[0].addr == addr {
        RunFinished(m, next, all[1..]);
      } else {
        FirstMatch(addr, next, all[1..]);
        assert forall i | 1 <= i < |all| :: all[1..][i - 1] == all[i];
      }
    }
  }

  // ----- names among the strings

  /** The first sequence is the second with some entries left out. */
  predicate Kept(part: seq<nat>, whole: seq<nat>)
    decreases |whole|
  {
    if part == [] then true
    else if whole == [] then false
    else (part[0] == whole[0] && Kept(part[1..], whole[1..])) || Kept(part, whole[1..])
  }

  lemma {:induction false} KeptBehind(part: seq<nat>, a: seq<nat>, b: seq<nat>)
    requires Kept(part, b)
    ensures Kept(part, a + b)
    decreases |a|
  {
    if a == [] {
      assert a + b == b;
    } else {
      RestOfJoin(a, b);
      KeptBehind(part, a[1..], b);
    }
  }

  lemma {:induction false} KeptJoin(a: seq<nat>, b: seq<nat>, c: seq<nat>, d: seq<nat>)
    requires Kept(a, b) && Kept(c, d)
    ensures Kept(a + c, b + d)
    decreases |b|
  {
    if a == [] {
      assert a + c == c;
      KeptBehind(c, b, d);
    } else {
      RestOfJoin(a, c);
      RestOfJoin(b, d);
      if a[0] == b[0] && Kept(a[1..], b[1..]) {
        KeptJoin(a[1..], b[1..], c, d);
      } else {
        KeptJoin(a, b[1..], c, d);
      }
    }
  }

  lemma NamesJoin(a: seq<NameWalk.Name>, b: seq<Str>, c: seq<NameWalk.Name>, d: seq<Str>)
    requires Kept(Addrs(a), Addrs(b)) && Kept(Addrs(c), Addrs(d))
    ensures Kept(Addrs(a + c), Addrs(b + d))
  {
    AddrsJoin(a, c);
    AddrsJoin(b, d);
    KeptJoin(Addrs(a), Addrs(b), Addrs(c), Addrs(d));
  }

  lemma AtomIsString(sc: NameWalk.Schema, t: Tree, owner: Option<nat>, c: Option<NameWalk.Context>, name: string,
                     slot: StringSlot)
    ensures Kept(Addrs(NameWalk.Atom(sc, t, owner, c, name, slot)), Addrs([Slot(slot)]))
  {
    var atom := NameWalk.Atom(sc, t, owner, c, name, slot);
    if atom != [] {
      AddrsAt(atom, 0);
      AddrsAt([Slot(slot)], 0);
      assert Kept(Addrs(atom)[1..], Addrs([Slot(slot)])[1..]);
    }
  }

  lemma {:induction false} TextsAreStrings(sc: NameWalk.Schema, t: Tree, owner: Option<nat>,
                                           c: Option<NameWalk.Context>,
                                           name: string, slots: seq<StringSlot>, j: nat)
    requires j <= |slots|
    ensures Kept(Addrs(NameWalk.TextsFrom(sc, t, owner, c, name, slots, j)), Addrs(Slots(slots, j)))
    decreases |slots| - j
  {
    if j < |slots| {
      AtomIsString(sc, t, owner, c, name, slots[j]);
      TextsAreStrings(sc, t, owner, c, name, slots, j + 1);
      NamesJoin(NameWalk.Atom(sc, t, owner, c, name, slots[j]), [Slot(slots[j])],
                NameWalk.TextsFrom(sc, t, owner, c, name, slots, j + 1), Slots(slots, j + 1));
    }
  }

  /** Every name is one of the string slots, and the names keep the order of the
      slots: whatever the policies say, a larger name ordinal is a larger string
      ordinal. */
  lemma {:induction false} NamesAreStrings(sc: NameWalk.Schema, omit: bool, t: Tree, c: Option<NameWalk.Context>)
    ensures Kept(Addrs(NameWalk.Names(sc, omit, t, c)), Addrs(Strings(t)))
    decreases t, 3, 0
  {
    NamesFromAreStrings(sc, omit, t, c, 0);
  }

  lemma {:induction false} NamesFromAreStrings(sc: NameWalk.Schema, omit: bool, t: Tree, c: Option<NameWalk.Context>,
                                               i: nat)
    requires i <= |t.fields|
    ensures Kept(Addrs(NameWalk.NamesFrom(sc, omit, t, c, i)), Addrs(StringsFrom(t, i)))
    decreases t, 2, |t.fields| - i
  {
    if i < |t.fields| {
      FieldNamesAreStrings(sc, omit, t, c, i);
      NamesFromAreStrings(sc, omit, t, c, i + 1);
      NamesJoin(NameWalk.FieldNames(sc, omit, t, c, i), FieldStrings(t, i),
                NameWalk.NamesFrom(sc, omit, t, c, i + 1), StringsFrom(t, i + 1));
    }
  }

  lemma {:induction false} FieldNamesAreStrings(sc: NameWalk.Schema, omit: bool, t: Tree, c: Option<NameWalk.Context>,
                                                i: nat)
    requires i < |t.fields|
    ensures Kept(Addrs(NameWalk.FieldNames(sc, omit, t, c, i)), Addrs(FieldStrings(t, i)))
    decreases t, 1, 0
  {
    hide Kept, NameWalk.Atom, NameWalk.LocationOwner, NameWalk.Below, NameWalk.Names, NameWalk.TextsFrom,
         NameWalk.ItemsFrom,
         Strings, ItemStrings, Slots, Addrs;
    KeptNothing();
    var f := t.fields[i];
    var owner := NameWalk.LocationOwner(sc, omit, t, c);
    if f.active {
      match f.value {
        case Text(slot) => AtomIsString(sc, t, owner, c, f.name, slot);
        case Texts(slots) => TextsAreStrings(sc, t, owner, c, f.name, slots, 0);
        case Child(one) =>
          if one.child.Some? {
            NamesAreStrings(sc, omit, one.child.value, Some(NameWalk.Below(sc, omit, t, i, c)));
          }
        case Children(many) => ItemNamesAreStrings(sc, omit, t, c, i, many, 0);
        case _ =>
      }
    }
  }

  lemma KeptNothing()
    ensures Kept(Addrs<NameWalk.NameInfo>([]), Addrs<Option<string>>([]))
  {
  }

  lemma {:induction false} ItemNamesAreStrings(sc: NameWalk.Schema, omit: bool, t: Tree, c: Option<NameWalk.Context>,
                                               i: nat,
                                               many: seq<MessageSlot>, j: nat)
    requires i < |t.fields| && t.fields[i].value == Children(many) && j <= |many|
    ensures Kept(Addrs(NameWalk.ItemsFrom(sc, omit, t, c, i, j)), Addrs(ItemStrings(t, many, j)))
    decreases t, 0, |many| - j
  {
    hide Kept, NameWalk.Below, NameWalk.Names, Strings, Addrs;
    KeptNothing();
    if j < |many| {
      ItemNamesAreStrings(sc, omit, t, c, i, many, j + 1);
      var rest, others := NameWalk.ItemsFrom(sc, omit, t, c, i, j + 1), ItemStrings(t, many, j + 1);
      if many[j].child.Some? {
        var child, below := many[j].child.value, Some(NameWalk.Below(sc, omit, t, i, c));
        NamesAreStrings(sc, omit, child, below);
        NamesJoin(NameWalk.Names(sc, omit, child, below), Strings(child), rest, others);
      } else {
        NamesJoin([], [], rest, others);
      }
    }
  }
}

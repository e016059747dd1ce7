/** The bulk reader: all names of a statement in one walk, into a caller's buffer. */
module NameBulk {
  import opened Wrappers
  import opened AstTree
  import opened OrdinalSearch
  import opened NameWalk

  datatype NameView = NameView(ownerType: string, fieldName: string, value: string)

  function View(n: Name): NameView {
    NameView(n.info.ownerType, n.info.fieldName, n.info.value)
  }

  /** The buffer after the names were written from position `from` on, as far as they fit. */
  function Filled(buffer: seq<NameView>, capacity: nat, from: nat, names: seq<Name>): (r: seq<NameView>)
    requires capacity <= |buffer|
    ensures |r| == |buffer|
    decreases |names|
  {
    if names == [] then buffer
    else Filled(if from < capacity then buffer[from := View(names[0])] else buffer, capacity, from + 1, names[1..])
  }

  lemma {:induction false} FilledJoin(buffer: seq<NameView>, capacity: nat, from: nat, a: seq<Name>, b: seq<Name>)
    requires capacity <= |buffer|
    ensures Filled(Filled(buffer, capacity, from, a), capacity, from + |a|, b) == Filled(buffer, capacity, from, a + b)
    decreases |a|
  {
    if a == [] {
      assert a + b == b;
    } else {
      FilledJoin(if from < capacity then buffer[from := View(a[0])] else buffer, capacity, from + 1, a[1..], b);
      assert (a + b)[1..] == a[1..] + b;
    }
  }

  lemma {:induction false} FilledAt(buffer: seq<NameView>, capacity: nat, from: nat, names: seq<Name>, k: nat)
    requires capacity <= |buffer| && k < |buffer|
    ensures Filled(buffer, capacity, from, names)[k]
         == if from <= k < from + |names| && k < capacity then View(names[k - from]) else buffer[k]
    decreases |names|
  {
    if names != [] {
      FilledAt(if from < capacity then buffer[from := View(names[0])] else buffer, capacity, from + 1, names[1..], k);
    }
  }

  class Bulk {
    const views: array<NameView>
    const capacity: nat
    var seen: nat

    constructor (views: array<NameView>, capacity: nat)
      ensures this.views == views && this.capacity == capacity && seen == 0
    {
      this.views, this.capacity, seen := views, capacity, 0;
    }

    /** Writes one name view if it fits, and counts it in any case. */
    method WriteAtom(sc: Schema, t: Tree, context: Option<Context>, name: string, slot: StringSlot)
      requires capacity <= views.Length
      modifies this, views
      ensures var atom := Atom(sc, t, None, context, name, slot);
              && seen == old(seen) + |atom|
              && views[..] == Filled(old(views[..]), capacity, old(seen), atom)
    {
      var atom := Atom(sc, t, None, context, name, slot);
      if |atom| == 0 {
        return;
      }
      if seen < capacity {
        views[seen] := View(atom[0]);
      }
      seen := seen + 1;
      assert atom[1..] == [];
    }

    /** One walk over everything below t.  False means a broken array was met. */
    method Walk(sc: Schema, t: Tree, context: Option<Context>) returns (ok: bool)
      requires Faithful(sc) && capacity <= views.Length
      requires context.Some? ==> context.value.locationOwner == None
      modifies this, views
      ensures ok <==> Intact(t)
      ensures ok ==> seen == old(seen) + |Names(sc, true, t, context)|
      ensures ok ==> views[..] == Filled(old(views[..]), capacity, old(seen), Names(sc, true, t, context))
      decreases t, 1
    {
      if Fusable(t) && context.Some? {
        FusedNode(sc, true, t, context.value);
        match t.fields[0].value.one.child {
          case Some(child) => ok := Walk(sc, child, context);
          case None => ok := true;
        }
        assert Intact(t) <==> IntactField(t, 0);
        return;
      }
      ghost var buffer, start := views[..], seen;
      for i := 0 to |t.fields|
        invariant forall k | 0 <= k < i :: t.fields[k].active ==> IntactField(t, k)
        invariant seen + |NamesFrom(sc, true, t, context, i)| == start + |Names(sc, true, t, context)|
        invariant Filled(views[..], capacity, seen, NamesFrom(sc, true, t, context, i))
               == Filled(buffer, capacity, start, Names(sc, true, t, context))
      {
        ghost var before, at := views[..], seen;
        ok := WalkField(sc, t, context, i);
        if !ok {
          return false;
        }
        FilledJoin(before, capacity, at, FieldNames(sc, true, t, context, i), NamesFrom(sc, true, t, context, i + 1));
      }
      return true;
    }

    method WalkField(sc: Schema, t: Tree, context: Option<Context>, i: nat) returns (ok: bool)
      requires Faithful(sc) && capacity <= views.Length && i < |t.fields|
      requires context.Some? ==> context.value.locationOwner == None
      modifies this, views
      ensures ok <==> (t.fields[i].active ==> IntactField(t, i))
      ensures ok ==> seen == old(seen) + |FieldNames(sc, true, t, context, i)|
      ensures ok ==> views[..] == Filled(old(views[..]), capacity, old(seen), FieldNames(sc, true, t, context, i))
      decreases t, 0, 1
    {
      var f := t.fields[i];
      ok := true;
      if !f.active {
        return;
      }
      match f.value {
        case BrokenTexts => ok := false;
        case BrokenChildren => ok := false;
        case Text(slot) => WriteAtom(sc, t, context, f.name, slot);
        case Texts(slots) => WalkTexts(sc, t, context, f.name, slots);
        case Child(one) =>
          if one.child.Some? {
            ok := Walk(sc, one.child.value, Some(Below(sc, true, t, i, context)));
          }
        case Children(_) => ok := WalkItems(sc, t, context, i);
        case Scalar(_) =>
      }
    }

    method WalkTexts(sc: Schema, t: Tree, context: Option<Context>, name: string, slots: seq<StringSlot>)
      requires capacity <= views.Length
      modifies this, views
      ensures seen == old(seen) + |TextsFrom(sc, t, None, context, name, slots, 0)|
      ensures views[..] == Filled(old(views[..]), capacity, old(seen), TextsFrom(sc, t, None, context, name, slots, 0))
    {
      ghost var buffer, start := views[..], seen;
      for j := 0 to |slots|
        invariant seen + |TextsFrom(sc, t, None, context, name, slots, j)|
               == start + |TextsFrom(sc, t, None, context, name, slots, 0)|
        invariant Filled(views[..], capacity, seen, TextsFrom(sc, t, None, context, name, slots, j))
               == Filled(buffer, capacity, start, TextsFrom(sc, t, None, context, name, slots, 0))
      {
        ghost var before, at := views[..], seen;
        WriteAtom(sc, t, context, name, slots[j]);
        FilledJoin(before, capacity, at, Atom(sc, t, None, context, name, slots[j]),
                   TextsFrom(sc, t, None, context, name, slots, j + 1));
      }
    }

    method WalkItems(sc: Schema, t: Tree, context: Option<Context>, i: nat) returns (ok: bool)
      requires Faithful(sc) && capacity <= views.Length && i < |t.fields| && t.fields[i].value.Children?
      requires context.Some? ==> context.value.locationOwner == None
      modifies this, views
      ensures ok <==> IntactField(t, i)
      ensures ok ==> seen == old(seen) + |ItemsFrom(sc, true, t, context, i, 0)|
      ensures ok ==> views[..] == Filled(old(views[..]), capacity, old(seen), ItemsFrom(sc, true, t, context, i, 0))
      decreases t, 0, 0
    {
      ghost var buffer, start := views[..], seen;
      var many := t.fields[i].value.many;
      for j := 0 to |many|
        invariant forall k | 0 <= k < j :: many[k].child.Some? ==> Intact(many[k].child.value)
        invariant seen + |ItemsFrom(sc, true, t, context, i, j)| == start + |ItemsFrom(sc, true, t, context, i, 0)|
        invariant Filled(views[..], capacity, seen, ItemsFrom(sc, true, t, context, i, j))
               == Filled(buffer, capacity, start, ItemsFrom(sc, true, t, context, i, 0))
      {
        if many[j].child.Some? {
          ghost var before, at := views[..], seen;
          ok := Walk(sc, many[j].child.value, Some(Below(sc, true, t, i, context)));
          if !ok {
            return false;
          }
          FilledJoin(before, capacity, at, Names(sc, true, many[j].child.value, Some(Below(sc, true, t, i, context))),
                     ItemsFrom(sc, true, t, context, i, j + 1));
        } else {
          assert ItemsFrom(sc, true, t, context, i, j) == ItemsFrom(sc, true, t, context, i, j + 1);
        }
      }
      return true;
    }
  }

  /** The public call.  A short positive buffer gets its exact prefix together with
      the full total; a zero capacity only counts; slots that get no name keep
      their contents. */
  method StatementNames(sc: Schema, statement: Tree, views: array<NameView>, capacity: nat)
    returns (status: Status, count: nat)
    requires Faithful(sc) && capacity <= views.Length
    modifies views
    ensures status == InternalError <==> !Intact(statement)
    ensures status == InternalError ==> count == 0
    ensures status != InternalError ==>
      var names := Names(sc, true, statement, None);
      && count == |names|
      && status == (if capacity != 0 && |names| > capacity then ResourceLimit else Ok)
      && (forall k | 0 <= k < views.Length ::
            views[k] == if k < |names| && k < capacity then View(names[k]) else old(views[k]))
  {
    var bulk := new Bulk(views, capacity);
    var ok := bulk.Walk(sc, statement, None);
    if !ok {
      return InternalError, 0;
    }
    count := bulk.seen;
    forall k | 0 <= k < views.Length
      ensures views[k] == if k < count && k < capacity then View(Names(sc, true, statement, None)[k]) else old(views[k])
    {
      FilledAt(old(views[..]), capacity, 0, Names(sc, true, statement, None), k);
      assert views[..][k] == views[k];
    }
    status := if capacity != 0 && count > capacity then ResourceLimit else Ok;
  }
}

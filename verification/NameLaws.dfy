/** Laws of the name numbering: the bulk reader and the ordinal reader agree. */
module NameLaws {
  import opened Wrappers
  import opened AstTree
  import opened OrdinalSearch
  import opened NameWalk
  import opened NameBulk

  // ----- reading with or without location owners

  /** A name without its location owner. */
  function Blur(n: Name): Name {
    n.(info := n.info.(locationOwner := None))
  }

  function BlurAll(names: seq<Name>): (r: seq<Name>)
    ensures |r| == |names| && forall i | 0 <= i < |names| :: r[i] == Blur(names[i])
  {
    if names == [] then [] else [Blur(names[0])] + BlurAll(names[1..])
  }

  lemma BlurJoin(a: seq<Name>, b: seq<Name>)
    ensures BlurAll(a + b) == BlurAll(a) + BlurAll(b)
  {
    hide BlurAll;
    var whole, parts := BlurAll(a + b), BlurAll(a) + BlurAll(b);
    assert |whole| == |parts| && forall i | 0 <= i < |whole| :: whole[i] == parts[i];
  }

  lemma {:induction false} OmitNames(sc: Schema, t: Tree, c: Option<Context>, d: Option<Context>)
    requires Unlocated(c) == Unlocated(d)
    ensures BlurAll(Names(sc, true, t, c)) == BlurAll(Names(sc, false, t, d))
    decreases t, 3, 0
  {
    OmitFrom(sc, t, c, d, 0);
  }

  lemma {:induction false} OmitFrom(sc: Schema, t: Tree, c: Option<Context>, d: Option<Context>, i: nat)
    requires Unlocated(c) == Unlocated(d) && i <= |t.fields|
    ensures BlurAll(NamesFrom(sc, true, t, c, i)) == BlurAll(NamesFrom(sc, false, t, d, i))
    decreases t, 2, |t.fields| - i
  {
    if i < |t.fields| {
      OmitField(sc, t, c, d, i);
      OmitFrom(sc, t, c, d, i + 1);
      BlurJoin(FieldNames(sc, true, t, c, i), NamesFrom(sc, true, t, c, i + 1));
      BlurJoin(FieldNames(sc, false, t, d, i), NamesFrom(sc, false, t, d, i + 1));
    }
  }

  lemma {:induction false} OmitField(sc: Schema, t: Tree, c: Option<Context>, d: Option<Context>, i: nat)
    requires Unlocated(c) == Unlocated(d) && i < |t.fields|
    ensures BlurAll(FieldNames(sc, true, t, c, i)) == BlurAll(FieldNames(sc, false, t, d, i))
    decreases t, 1, 0
  {
    hide BlurAll, Names, TextsFrom, ItemsFrom;
    var f := t.fields[i];
    if f.active {
      match f.value {
        case Text(slot) =>
          OmitAtom(sc, t, LocationOwner(sc, true, t, c), LocationOwner(sc, false, t, d), c, d, f.name, slot);
        case Child(one) =>
          if one.child.Some? {
            OmitNames(sc, one.child.value, Some(Below(sc, true, t, i, c)), Some(Below(sc, false, t, i, d)));
          }
        case Children(many) => OmitItems(sc, t, c, d, i, 0);
        case Texts(slots) =>
          OmitTexts(sc, t, LocationOwner(sc, true, t, c), LocationOwner(sc, false, t, d), c, d, f.name, slots, 0);
        case _ =>
      }
    }
  }

  lemma OmitAtom(sc: Schema, t: Tree, o: Option<nat>, p: Option<nat>, c: Option<Context>, d: Option<Context>,
                 name: string, slot: StringSlot)
    requires Unlocated(c) == Unlocated(d)
    ensures BlurAll(Atom(sc, t, o, c, name, slot)) == BlurAll(Atom(sc, t, p, d, name, slot))
  {
    assert IsIdentifier(sc, t, c, name) == IsIdentifier(sc, t, d, name);
  }

  lemma {:induction false} OmitTexts(sc: Schema, t: Tree, o: Option<nat>, p: Option<nat>, c: Option<Context>,
                                     d: Option<Context>, name: string, slots: seq<StringSlot>, j: nat)
    requires Unlocated(c) == Unlocated(d) && j <= |slots|
    ensures BlurAll(TextsFrom(sc, t, o, c, name, slots, j)) == BlurAll(TextsFrom(sc, t, p, d, name, slots, j))
    decreases |slots| - j
  {
    hide Atom, BlurAll, Unlocated;
    if j < |slots| {
      OmitTexts(sc, t, o, p, c, d, name, slots, j + 1);
      OmitAtom(sc, t, o, p, c, d, name, slots[j]);
      BlurJoin(Atom(sc, t, o, c, name, slots[j]), TextsFrom(sc, t, o, c, name, slots, j + 1));
      BlurJoin(Atom(sc, t, p, d, name, slots[j]), TextsFrom(sc, t, p, d, name, slots, j + 1));
    }
  }

  lemma {:induction false} OmitItems(sc: Schema, t: Tree, c: Option<Context>, d: Option<Context>, i: nat, j: nat)
    requires Unlocated(c) == Unlocated(d) && i < |t.fields|
    requires t.fields[i].value.Children? && j <= |t.fields[i].value.many|
    ensures BlurAll(ItemsFrom(sc, true, t, c, i, j)) == BlurAll(ItemsFrom(sc, false, t, d, i, j))
    decreases t, 0, |t.fields[i].value.many| - j
  {
    hide BlurAll, Names;
    var many := t.fields[i].value.many;
    if j < |many| {
      OmitItems(sc, t, c, d, i, j + 1);
      if many[j].child.Some? {
        var child, e, g := many[j].child.value, Some(Below(sc, true, t, i, c)), Some(Below(sc, false, t, i, d));
        OmitNames(sc, child, e, g);
        BlurJoin(Names(sc, true, child, e), ItemsFrom(sc, true, t, c, i, j + 1));
        BlurJoin(Names(sc, false, child, g), ItemsFrom(sc, false, t, d, i, j + 1));
      }
    }
  }

  /** The bulk reader's k-th view is the view the ordinal reader gives for index k,
      and the ordinal reader finds nothing past the bulk count; it does not matter
      whether the ordinal reader tracks location owners. */
  lemma BulkEqualsOrdinal(sc: Schema, omit: bool, statement: Tree, k: nat)
    ensures var bulk := Names(sc, true, statement, None);
            var found := Run(BY_INDEX, Start(k), Names(sc, omit, statement, None)).target;
            && (found.Some? <==> k < |bulk|)
            && (found.Some? ==> View(found.value) == View(bulk[k]) && found.value.addr == bulk[k].addr)
  {
    hide Names, Run, BlurAll, View;
    OmitNames(sc, statement, None, None);
    SameViews(Names(sc, true, statement, None), Names(sc, false, statement, None), k);
    IndexFinds(Start(k), Names(sc, omit, statement, None));
  }

  lemma SameViews(a: seq<Name>, b: seq<Name>, k: nat)
    requires BlurAll(a) == BlurAll(b)
    ensures |a| == |b|
    ensures k < |a| ==> View(a[k]) == View(b[k]) && a[k].addr == b[k].addr
  {
    assert |a| == |BlurAll(a)| == |BlurAll(b)| == |b|;
    if k < |a| {
      assert BlurAll(a)[k] == BlurAll(b)[k];
    }
  }

  // ----- a missing context is a blank one

  lemma {:induction false} BlankFrom(sc: Schema, omit: bool, t: Tree, i: nat)
    requires Faithful(sc) && i <= |t.fields|
    ensures NamesFrom(sc, omit, t, None, i) == NamesFrom(sc, omit, t, Some(BLANK), i)
    decreases |t.fields| - i
  {
    if i < |t.fields| {
      BlankField(sc, omit, t, i);
      BlankFrom(sc, omit, t, i + 1);
    }
  }

  lemma BlankPolicy(sc: Schema, t: Tree, name: string)
    requires Faithful(sc)
    ensures IsIdentifier(sc, t, None, name) == IsIdentifier(sc, t, Some(BLANK), name)
    ensures NextContext(sc, t, name, None) == NextContext(sc, t, name, Some(BLANK))
  {
  }

  lemma BlankField(sc: Schema, omit: bool, t: Tree, i: nat)
    requires Faithful(sc) && i < |t.fields|
    ensures FieldNames(sc, omit, t, None, i) == FieldNames(sc, omit, t, Some(BLANK), i)
  {
    var f := t.fields[i];
    BlankPolicy(sc, t, f.name);
    match f.value {
      case Children(many) => BlankItems(sc, omit, t, i, 0);
      case Texts(slots) => BlankTexts(sc, t, LocationOwner(sc, omit, t, None), f.name, slots, 0);
      case _ =>
    }
  }

  lemma {:induction false} BlankTexts(sc: Schema, t: Tree, o: Option<nat>, name: string, slots: seq<StringSlot>, j: nat)
    requires Faithful(sc) && j <= |slots|
    ensures TextsFrom(sc, t, o, None, name, slots, j) == TextsFrom(sc, t, o, Some(BLANK), name, slots, j)
    decreases |slots| - j
  {
    if j < |slots| {
      BlankPolicy(sc, t, name);
      BlankTexts(sc, t, o, name, slots, j + 1);
    }
  }

  lemma {:induction false} BlankItems(sc: Schema, omit: bool, t: Tree, i: nat, j: nat)
    requires Faithful(sc) && i < |t.fields| && t.fields[i].value.Children? && j <= |t.fields[i].value.many|
    ensures ItemsFrom(sc, omit, t, None, i, j) == ItemsFrom(sc, omit, t, Some(BLANK), i, j)
    decreases |t.fields[i].value.many| - j
  {
    BlankPolicy(sc, t, t.fields[i].name);
    if j < |t.fields[i].value.many| {
      BlankItems(sc, omit, t, i, j + 1);
    }
  }
}

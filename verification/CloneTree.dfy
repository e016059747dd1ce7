/** Deep copies of protobuf messages when any allocation may fail. */
module CloneTree {
  import opened Wrappers

  // ----- messages with the addresses of their buffers

  /** A string or bytes pointer: NULL, the default value of the field's descriptor,
      or a buffer of its own. */
  datatype Pointer = Null | Default | Buffer(addr: nat, content: seq<int>)

  /** One value of a field; the default of a message field is always NULL.  `tag` names
      the field and wire type of unknown bytes. */
  datatype Item =
    | Number(number: int)
    | String(text: Pointer)
    | Bytes(tag: int, length: nat, data: Pointer)
    | Child(message: Option<Message>)

  /** `Inactive` is a one-of alternative that is not selected; `Odd` a field of a type
      the clone does not know; `NullMany` a repeated field whose array pointer is NULL,
      whatever its count. */
  datatype Value =
    | Inactive
    | Odd
    | One(quantifier: bool, item: Item)
    | NullMany(count: nat)
    | Many(addr: nat, items: seq<Item>)

  /** The number of a field; a case of zero selects none. */
  type Id = x: nat | x > 0 witness 1

  /** A Node wrapper is a union: its case says which alternative, if any, is stored. */
  datatype Fields =
    | Record(slots: seq<Value>)
    | Union(ids: seq<Id>, selected: nat, stored: Option<Message>)

  /** `genuine` is the descriptor test; unknown fields are a repeated bytes field. */
  datatype Message = Message(addr: nat, genuine: bool, fields: Fields, unknown: Value)

  // ----- which buffers a message owns

  function Is(a: nat, x: nat): nat {
    if a == x then 1 else 0
  }

  function Has(s: set<nat>, x: nat): nat {
    if x in s then 1 else 0
  }

  function PointerOwns(p: Pointer, x: nat): nat {
    if p.Buffer? then Is(p.addr, x) else 0
  }

  /** How often the protobuf destructor of an item frees an address. */
  function ItemOwns(item: Item, x: nat): nat
    decreases item, 0
  {
    match item
    case Number(_) => 0
    case String(text) => PointerOwns(text, x)
    case Bytes(_, _, data) => PointerOwns(data, x)
    case Child(message) => if message.Some? then Owns(message.value, x) else 0
  }

  function ItemsOwn(items: seq<Item>, x: nat): nat
    decreases items, 1
  {
    if items == [] then 0 else ItemsOwn(items[..|items| - 1], x) + ItemOwns(items[|items| - 1], x)
  }

  function ValueOwns(value: Value, x: nat): nat
    decreases value, 2
  {
    match value
    case One(_, item) => ItemOwns(item, x)
    case Many(addr, items) => Is(addr, x) + ItemsOwn(items, x)
    case _ => 0
  }

  function SlotsOwn(slots: seq<Value>, x: nat): nat
    decreases slots, 3
  {
    if slots == [] then 0 else SlotsOwn(slots[..|slots| - 1], x) + ValueOwns(slots[|slots| - 1], x)
  }

  function FieldsOwn(fields: Fields, x: nat): nat
    decreases fields, 4
  {
    match fields
    case Record(slots) => SlotsOwn(slots, x)
    case Union(ids, selected, stored) => if selected in ids && stored.Some? then Owns(stored.value, x) else 0
  }

  function Owns(m: Message, x: nat): nat
    decreases m, 5
  {
    Is(m.addr, x) + FieldsOwn(m.fields, x) + ValueOwns(m.unknown, x)
  }

  // ----- structural equality

  predicate SamePointer(a: Pointer, b: Pointer) {
    match a
    case Null => b.Null?
    case Default => b.Default?
    case Buffer(_, content) => b.Buffer? && b.content == content
  }

  predicate SameItem(a: Item, b: Item)
    decreases a, 0
  {
    match a
    case Number(number) => b == Number(number)
    case String(text) => b.String? && SamePointer(text, b.text)
    case Bytes(tag, length, data) => b.Bytes? && b.tag == tag && b.length == length && SamePointer(data, b.data)
    case Child(message) =>
      b.Child? && if message.None? then b.message.None? else b.message.Some? && Same(message.value, b.message.value)
  }

  predicate SameItems(a: seq<Item>, b: seq<Item>)
    decreases a, 1
  {
    |a| == |b| && forall i | 0 <= i < |a| :: SameItem(a[i], b[i])
  }

  /** A repeated field without elements. */
  predicate NoElements(value: Value) {
    value == NullMany(0) || (value.Many? && value.items == [])
  }

  /** An empty repeated field is empty whatever its array pointer. */
  predicate SameValue(a: Value, b: Value)
    decreases a, 2
  {
    if NoElements(a) || NoElements(b) then NoElements(a) && NoElements(b)
    else
      match a
      case Inactive => b.Inactive?
      case Odd => b.Odd?
      case One(quantifier, item) => b.One? && b.quantifier == quantifier && SameItem(item, b.item)
      case NullMany(count) => b == NullMany(count)
      case Many(_, items) => b.Many? && SameItems(items, b.items)
  }

  predicate SameSlots(a: seq<Value>, b: seq<Value>)
    decreases a, 3
  {
    |a| == |b| && forall i | 0 <= i < |a| :: SameValue(a[i], b[i])
  }

  /** A case that selects nothing is as good as none. */
  predicate SameFields(a: Fields, b: Fields)
    decreases a, 4
  {
    match a
    case Record(slots) => b.Record? && SameSlots(slots, b.slots)
    case Union(ids, selected, stored) =>
      && b.Union? && b.ids == ids
      && if selected !in ids then b.selected !in ids
         else b.selected == selected
              && if stored.None? then b.stored.None? else b.stored.Some? && Same(stored.value, b.stored.value)
  }

  /** Two messages differ at most in where they are stored. */
  predicate Same(a: Message, b: Message)
    decreases a, 5
  {
    a.genuine == b.genuine && SameFields(a.fields, b.fields) && SameValue(a.unknown, b.unknown)
  }

  // ----- what can be copied, and at what price

  predicate ItemCopies(item: Item)
    decreases item, 0
  {
    match item
    case Bytes(_, length, data) => data.Null? ==> length == 0
    case Child(message) => message.Some? ==> Copies(message.value)
    case _ => true
  }

  predicate ItemsCopy(items: seq<Item>)
    decreases items, 1
  {
    items != [] ==> ItemsCopy(items[..|items| - 1]) && ItemCopies(items[|items| - 1])
  }

  predicate ValueCopies(value: Value)
    decreases value, 2
  {
    match value
    case Inactive => true
    case Odd => false
    case One(_, item) => ItemCopies(item)
    case NullMany(count) => count == 0
    case Many(_, items) => ItemsCopy(items)
  }

  predicate SlotsCopy(slots: seq<Value>)
    decreases slots, 3
  {
    slots != [] ==> SlotsCopy(slots[..|slots| - 1]) && ValueCopies(slots[|slots| - 1])
  }

  predicate FieldsCopy(fields: Fields)
    decreases fields, 4
  {
    match fields
    case Record(slots) => SlotsCopy(slots)
    case Union(ids, selected, stored) => selected in ids && stored.Some? ==> Copies(stored.value)
  }

  /** No bad descriptor, no unknown type, no NULL behind a nonzero length. */
  predicate Copies(m: Message)
    decreases m, 5
  {
    m.genuine && FieldsCopy(m.fields) && ValueCopies(m.unknown)
  }

  function PointerCost(p: Pointer): nat {
    if p.Buffer? then 1 else 0
  }

  function ItemCost(item: Item): nat
    decreases item, 0
  {
    match item
    case Number(_) => 0
    case String(text) => PointerCost(text)
    case Bytes(_, _, data) => PointerCost(data)
    case Child(message) => if message.Some? then Cost(message.value) else 0
  }

  function ItemsCost(items: seq<Item>): nat
    decreases items, 1
  {
    if items == [] then 0 else ItemsCost(items[..|items| - 1]) + ItemCost(items[|items| - 1])
  }

  function ValueCost(value: Value): nat
    decreases value, 2
  {
    match value
    case One(_, item) => ItemCost(item)
    case Many(_, items) => if items == [] then 0 else 1 + ItemsCost(items)
    case _ => 0
  }

  function SlotsCost(slots: seq<Value>): nat
    decreases slots, 3
  {
    if slots == [] then 0 else SlotsCost(slots[..|slots| - 1]) + ValueCost(slots[|slots| - 1])
  }

  function FieldsCost(fields: Fields): nat
    decreases fields, 4
  {
    match fields
    case Record(slots) => SlotsCost(slots)
    case Union(ids, selected, stored) => if selected in ids && stored.Some? then Cost(stored.value) else 0
  }

  /** The number of buffers a copy needs. */
  function Cost(m: Message): nat
    decreases m, 5
  {
    1 + FieldsCost(m.fields) + ValueCost(m.unknown)
  }

  // ----- prefixes of the loops

  lemma ItemsStep(items: seq<Item>, j: nat, x: nat)
    requires j < |items|
    ensures ItemsOwn(items[..j + 1], x) == ItemsOwn(items[..j], x) + ItemOwns(items[j], x)
    ensures ItemsCost(items[..j + 1]) == ItemsCost(items[..j]) + ItemCost(items[j])
    ensures ItemsCopy(items[..j + 1]) <==> ItemsCopy(items[..j]) && ItemCopies(items[j])
  {
    assert items[..j + 1][..j] == items[..j];
  }

  lemma {:induction false} ItemsPrefix(items: seq<Item>, j: nat, x: nat)
    requires j <= |items|
    ensures ItemsOwn(items[..j], x) <= ItemsOwn(items, x)
    ensures ItemsCost(items[..j]) <= ItemsCost(items)
    ensures ItemsCopy(items) ==> ItemsCopy(items[..j])
    decreases |items| - j
  {
    if j < |items| {
      ItemsStep(items, j, x);
      ItemsPrefix(items, j + 1, x);
    } else {
      assert items[..j] == items;
    }
  }

  lemma SlotsStep(slots: seq<Value>, j: nat, x: nat)
    requires j < |slots|
    ensures SlotsOwn(slots[..j + 1], x) == SlotsOwn(slots[..j], x) + ValueOwns(slots[j], x)
    ensures SlotsCost(slots[..j + 1]) == SlotsCost(slots[..j]) + ValueCost(slots[j])
    ensures SlotsCopy(slots[..j + 1]) <==> SlotsCopy(slots[..j]) && ValueCopies(slots[j])
  {
    assert slots[..j + 1][..j] == slots[..j];
  }

  lemma {:induction false} SlotsPrefix(slots: seq<Value>, j: nat, x: nat)
    requires j <= |slots|
    ensures SlotsOwn(slots[..j], x) <= SlotsOwn(slots, x)
    ensures SlotsCost(slots[..j]) <= SlotsCost(slots)
    ensures SlotsCopy(slots) ==> SlotsCopy(slots[..j])
    decreases |slots| - j
  {
    if j < |slots| {
      SlotsStep(slots, j, x);
      SlotsPrefix(slots, j + 1, x);
    } else {
      assert slots[..j] == slots;
    }
  }

  // ----- what a step does to the live buffers

  /** The later set of live buffers is the earlier one and what the item owns. */
  ghost predicate Gained(before: set<nat>, after: set<nat>, item: Item) {
    forall x: nat :: Has(after, x) == Has(before, x) + ItemOwns(item, x)
  }

  ghost predicate GainedItems(before: set<nat>, after: set<nat>, items: seq<Item>) {
    forall x: nat :: Has(after, x) == Has(before, x) + ItemsOwn(items, x)
  }

  ghost predicate GainedValue(before: set<nat>, after: set<nat>, value: Value) {
    forall x: nat :: Has(after, x) == Has(before, x) + ValueOwns(value, x)
  }

  ghost predicate GainedSlots(before: set<nat>, after: set<nat>, slots: seq<Value>) {
    forall x: nat :: Has(after, x) == Has(before, x) + SlotsOwn(slots, x)
  }

  ghost predicate GainedFields(before: set<nat>, after: set<nat>, fields: Fields) {
    forall x: nat :: Has(after, x) == Has(before, x) + FieldsOwn(fields, x)
  }

  ghost predicate GainedMessage(before: set<nat>, after: set<nat>, m: Message) {
    forall x: nat :: Has(after, x) == Has(before, x) + Owns(m, x)
  }

  /** Every buffer of the item is live, and it owns none twice. */
  ghost predicate Held(live: set<nat>, item: Item) {
    forall x: nat :: ItemOwns(item, x) <= Has(live, x)
  }

  ghost predicate HeldItems(live: set<nat>, items: seq<Item>) {
    forall x: nat :: ItemsOwn(items, x) <= Has(live, x)
  }

  ghost predicate HeldValue(live: set<nat>, value: Value) {
    forall x: nat :: ValueOwns(value, x) <= Has(live, x)
  }

  ghost predicate HeldSlots(live: set<nat>, slots: seq<Value>) {
    forall x: nat :: SlotsOwn(slots, x) <= Has(live, x)
  }

  ghost predicate HeldFields(live: set<nat>, fields: Fields) {
    forall x: nat :: FieldsOwn(fields, x) <= Has(live, x)
  }

  ghost predicate HeldMessage(live: set<nat>, m: Message) {
    forall x: nat :: Owns(m, x) <= Has(live, x)
  }

  lemma ItemFreed(start: set<nat>, before: set<nat>, after: set<nat>, items: seq<Item>, j: nat)
    requires j < |items| && GainedItems(before, start, items[..j]) && Gained(after, before, items[j])
    ensures GainedItems(after, start, items[..j + 1])
  {
    forall x: nat ensures Has(start, x) == Has(after, x) + ItemsOwn(items[..j + 1], x) {
      ItemsStep(items, j, x);
    }
  }

  lemma NextItemHeld(start: set<nat>, live: set<nat>, items: seq<Item>, j: nat)
    requires j < |items| && HeldItems(start, items) && GainedItems(live, start, items[..j])
    ensures Held(live, items[j])
  {
    forall x: nat ensures ItemOwns(items[j], x) <= Has(live, x) {
      ItemsStep(items, j, x);
      ItemsPrefix(items, j + 1, x);
    }
  }

  lemma SlotFreed(start: set<nat>, before: set<nat>, after: set<nat>, slots: seq<Value>, j: nat)
    requires j < |slots| && GainedSlots(before, start, slots[..j]) && GainedValue(after, before, slots[j])
    ensures GainedSlots(after, start, slots[..j + 1])
  {
    forall x: nat ensures Has(start, x) == Has(after, x) + SlotsOwn(slots[..j + 1], x) {
      SlotsStep(slots, j, x);
    }
  }

  lemma NextSlotHeld(start: set<nat>, live: set<nat>, slots: seq<Value>, j: nat)
    requires j < |slots| && HeldSlots(start, slots) && GainedSlots(live, start, slots[..j])
    ensures HeldValue(live, slots[j])
  {
    forall x: nat ensures ValueOwns(slots[j], x) <= Has(live, x) {
      SlotsStep(slots, j, x);
      SlotsPrefix(slots, j + 1, x);
    }
  }

  /** Two sets that gain the same are the same. */
  lemma SameGain(before: set<nat>, middle: set<nat>, after: set<nat>, m: Message)
    requires GainedMessage(before, middle, m) && GainedMessage(after, middle, m)
    ensures after == before
  {
    forall x: nat ensures x in after <==> x in before {
      assert Has(middle, x) == Has(before, x) + Owns(m, x) && Has(middle, x) == Has(after, x) + Owns(m, x);
    }
  }

  // ----- the heap

  /** The allocator.  `budget` is the number of allocations that still succeed. */
  class Heap {
    var live: set<nat>
    var mark: nat
    var budget: nat

    ghost predicate Marked()
      reads this
    {
      forall x | x in live :: x < mark
    }

    method Allocate() returns (addr: Option<nat>)
      requires Marked()
      modifies this
      ensures Marked()
      ensures addr.Some? <==> old(budget) > 0
      ensures addr.Some? ==> addr.value !in old(live) && live == old(live) + {addr.value} && budget == old(budget) - 1
      ensures budget + |live| == old(budget) + |old(live)|
      ensures addr.None? ==> live == old(live) && budget == 0
    {
      if budget == 0 {
        return None;
      }
      addr := Some(mark);
      live := live + {mark};
      mark, budget := mark + 1, budget - 1;
    }

    /** Freeing demands that the address is live: a second free is an error. */
    method Free(addr: nat)
      requires Marked() && addr in live
      modifies this`live
      ensures Marked() && live == old(live) - {addr}
    {
      live := live - {addr};
    }

    // ----- the protobuf destructor

    method FreePointer(p: Pointer)
      requires Marked() && (p.Buffer? ==> p.addr in live)
      modifies this`live
      ensures Marked() && live == old(live) - if p.Buffer? then {p.addr} else {}
    {
      if p.Buffer? {
        Free(p.addr);
      }
    }

    method FreeItem(item: Item)
      requires Marked() && Held(live, item)
      modifies this`live
      ensures Marked() && Gained(live, old(live), item)
      decreases item, 0
    {
      match item {
        case Number(_) =>
        case String(text) =>
          assert text.Buffer? ==> ItemOwns(item, text.addr) == 1;
          FreePointer(text);
        case Bytes(_, _, data) =>
          assert data.Buffer? ==> ItemOwns(item, data.addr) == 1;
          FreePointer(data);
        case Child(message) =>
          if message.Some? {
            assert forall x: nat :: ItemOwns(item, x) == Owns(message.value, x);
            FreeMessage(message.value);
          }
      }
    }

    method FreeItems(items: seq<Item>)
      requires Marked() && HeldItems(live, items)
      modifies this`live
      ensures Marked() && GainedItems(live, old(live), items)
      decreases items, 1
    {
      hide ItemsOwn, ItemOwns, Held, Gained;
      NoItems(live);
      for j := 0 to |items|
        invariant Marked() && GainedItems(live, old(live), items[..j])
      {
        ghost var before := live;
        NextItemHeld(old(live), live, items, j);
        FreeItem(items[j]);
        ItemFreed(old(live), before, live, items, j);
      }
      assert items[..|items|] == items;
    }

    method FreeValue(value: Value)
      requires Marked() && HeldValue(live, value)
      modifies this`live
      ensures Marked() && GainedValue(live, old(live), value)
      decreases value, 2
    {
      match value {
        case One(_, item) =>
          assert forall x: nat :: ValueOwns(value, x) == ItemOwns(item, x);
          FreeItem(item);
        case Many(addr, items) =>
          ManyHeld(live, addr, items);
          FreeItems(items);
          Free(addr);
        case _ =>
      }
    }

    method FreeSlots(slots: seq<Value>)
      requires Marked() && HeldSlots(live, slots)
      modifies this`live
      ensures Marked() && GainedSlots(live, old(live), slots)
      decreases slots, 3
    {
      hide SlotsOwn, ValueOwns, HeldValue, GainedValue;
      NoSlots(live);
      for j := 0 to |slots|
        invariant Marked() && GainedSlots(live, old(live), slots[..j])
      {
        ghost var before := live;
        NextSlotHeld(old(live), live, slots, j);
        FreeValue(slots[j]);
        SlotFreed(old(live), before, live, slots, j);
      }
      assert slots[..|slots|] == slots;
    }

    method FreeFields(fields: Fields)
      requires Marked() && HeldFields(live, fields)
      modifies this`live
      ensures Marked() && GainedFields(live, old(live), fields)
      decreases fields, 4
    {
      match fields {
        case Record(slots) =>
          assert forall x: nat :: FieldsOwn(fields, x) == SlotsOwn(slots, x);
          FreeSlots(slots);
        case Union(ids, selected, stored) =>
          if selected in ids && stored.Some? {
            assert forall x: nat :: FieldsOwn(fields, x) == Owns(stored.value, x);
            FreeMessage(stored.value);
          }
      }
    }

    /** Frees every buffer of a message, each exactly once. */
    method FreeMessage(m: Message)
      requires Marked() && HeldMessage(live, m)
      modifies this`live
      ensures Marked() && GainedMessage(live, old(live), m)
      decreases m, 5
    {
      MessageHeld(live, m);
      FreeFields(m.fields);
      ghost var before := live;
      UnknownHeld(old(live), live, m);
      FreeValue(m.unknown);
      MessageFreed(old(live), before, live, m);
      Free(m.addr);
    }

    // ----- the clone

    method ClonePointer(p: Pointer) returns (copy: Pointer, ok: bool)
      requires Marked()
      modifies this
      ensures Marked()
      ensures ok <==> PointerCost(p) <= old(budget)
      ensures !ok ==> copy == Null && live == old(live)
      ensures ok ==> SamePointer(p, copy)
      ensures ok ==> budget == old(budget) - PointerCost(p) && |live| == |old(live)| + PointerCost(p)
      ensures ok ==> forall x: nat :: Has(live, x) == Has(old(live), x) + PointerOwns(copy, x)
    {
      if !p.Buffer? {
        return p, true;
      }
      var addr := Allocate();
      if addr.None? {
        return Null, false;
      }
      return Buffer(addr.value, p.content), true;
    }

    /** Copies one value into a zeroed slot.  A copy that fails owns nothing. */
    method CloneItem(item: Item) returns (copy: Item, ok: bool)
      requires Marked()
      modifies this
      ensures Marked() && Gained(old(live), live, copy)
      ensures ok <==> ItemCopies(item) && ItemCost(item) <= old(budget)
      ensures ok ==> SameItem(item, copy)
      ensures ok ==> budget == old(budget) - ItemCost(item) && |live| == |old(live)| + ItemCost(item)
      decreases item, 0
    {
      match item {
        case Number(_) =>
          return item, true;
        case String(text) =>
          var p;
          p, ok := ClonePointer(text);
          copy := String(p);
        case Bytes(tag, length, data) =>
          if data.Null? {
            return item, length == 0;
          }
          var p;
          p, ok := ClonePointer(data);
          copy := Bytes(tag, length, p);
        case Child(message) =>
          if message.None? {
            return item, true;
          }
          var m := Clone(message.value);
          copy, ok := Child(m), m.Some?;
          ChildGained(old(live), live, m);
      }
    }

    /** Copies the elements of a repeated field, stopping at the first failure.  The
        elements not reached are still NULL and own nothing. */
    method CloneItems(items: seq<Item>) returns (copies: seq<Item>, ok: bool)
      requires Marked()
      modifies this
      ensures Marked() && GainedItems(old(live), live, copies)
      ensures ok <==> ItemsCopy(items) && ItemsCost(items) <= old(budget)
      ensures ok ==> SameItems(items, copies)
      ensures ok ==> budget == old(budget) - ItemsCost(items) && |live| == |old(live)| + ItemsCost(items)
      decreases items, 1
    {
      hide ItemsOwn, ItemOwns, ItemsCost, ItemCost, ItemsCopy, ItemCopies, SameItems, SameItem, GainedItems, Gained;
      copies := [];
      NoItems(live);
      ItemsStart(items);
      for j := 0 to |items|
        invariant Marked() && GainedItems(old(live), live, copies)
        invariant ItemsCopy(items[..j]) && budget == old(budget) - ItemsCost(items[..j])
                  && |live| == |old(live)| + ItemsCost(items[..j])
        invariant SameItems(items[..j], copies)
      {
        ghost var before, done := live, copies;
        ItemsStep(items, j, 0);
        ItemsPrefix(items, j + 1, 0);
        var copy;
        copy, ok := CloneItem(items[j]);
        copies := copies + [copy];
        ItemGained(old(live), before, live, done, copy);
        if !ok {
          return;
        }
        SameAppended(items, j, done, copy);
      }
      assert items[..|items|] == items;
      ok := true;
    }

    /** Copies a field into a zeroed one.  What a failed copy owns, it owns once. */
    method CloneValue(value: Value) returns (copy: Value, ok: bool)
      requires Marked()
      modifies this
      ensures Marked() && GainedValue(old(live), live, copy)
      ensures ok <==> ValueCopies(value) && ValueCost(value) <= old(budget)
      ensures ok ==> SameValue(value, copy)
      ensures ok ==> budget == old(budget) - ValueCost(value) && |live| == |old(live)| + ValueCost(value)
      decreases value, 2
    {
      match value {
        case Inactive =>
          return Inactive, true;
        case Odd =>
          return Odd, false;
        case One(quantifier, item) =>
          var c;
          c, ok := CloneItem(item);
          copy := One(quantifier, c);
          OneGained(old(live), live, quantifier, c);
        case NullMany(count) =>
          return NullMany(0), count == 0;
        case Many(_, items) =>
          if items == [] {
            assert ItemsCopy(items);
            return NullMany(0), true;
          }
          var addr := Allocate();
          if addr.None? {
            return NullMany(0), false;
          }
          ghost var before := live;
          var copies;
          copies, ok := CloneItems(items);
          copy := Many(addr.value, copies);
          ManyGained(old(live), before, live, addr.value, copies);
      }
    }

    method CloneSlots(slots: seq<Value>) returns (copies: seq<Value>, ok: bool)
      requires Marked()
      modifies this
      ensures Marked() && GainedSlots(old(live), live, copies)
      ensures ok <==> SlotsCopy(slots) && SlotsCost(slots) <= old(budget)
      ensures ok ==> SameSlots(slots, copies)
      ensures ok ==> budget == old(budget) - SlotsCost(slots) && |live| == |old(live)| + SlotsCost(slots)
      decreases slots, 3
    {
      hide SlotsOwn, ValueOwns, SlotsCost, ValueCost, SlotsCopy, ValueCopies, SameSlots, SameValue, GainedSlots,
           GainedValue;
      copies := [];
      NoSlots(live);
      SlotsStart(slots);
      for j := 0 to |slots|
        invariant Marked() && GainedSlots(old(live), live, copies)
        invariant SlotsCopy(slots[..j]) && budget == old(budget) - SlotsCost(slots[..j])
                  && |live| == |old(live)| + SlotsCost(slots[..j])
        invariant SameSlots(slots[..j], copies)
      {
        ghost var before, done := live, copies;
        SlotsStep(slots, j, 0);
        SlotsPrefix(slots, j + 1, 0);
        var copy;
        copy, ok := CloneValue(slots[j]);
        copies := copies + [copy];
        SlotGained(old(live), before, live, done, copy);
        if !ok {
          return;
        }
        SameSlotAppended(slots, j, done, copy);
      }
      assert slots[..|slots|] == slots;
      ok := true;
    }

    /** A Node needs a look at its selected alternative only. */
    method CloneFields(fields: Fields) returns (copy: Fields, ok: bool)
      requires Marked()
      modifies this
      ensures Marked() && GainedFields(old(live), live, copy)
      ensures ok <==> FieldsCopy(fields) && FieldsCost(fields) <= old(budget)
      ensures ok ==> SameFields(fields, copy)
      ensures ok ==> budget == old(budget) - FieldsCost(fields) && |live| == |old(live)| + FieldsCost(fields)
      decreases fields, 4
    {
      match fields {
        case Record(slots) =>
          var copies;
          copies, ok := CloneSlots(slots);
          copy := Record(copies);
          RecordGained(old(live), live, copies);
        case Union(ids, selected, stored) =>
          if selected !in ids {
            return Union(ids, 0, None), true;
          }
          if stored.None? {
            return fields, true;
          }
          var m := Clone(stored.value);
          copy, ok := Union(ids, selected, m), m.Some?;
          StoredGained(old(live), live, ids, selected, m);
      }
    }

    /** Copies a message, or frees the partial copy and leaves the heap as it was. */
    method Clone(source: Message) returns (copy: Option<Message>)
      requires Marked()
      modifies this
      ensures Marked()
      ensures copy.Some? <==> Copies(source) && Cost(source) <= old(budget)
      ensures copy.None? ==> live == old(live)
      ensures copy.Some? ==> Same(source, copy.value)
      ensures copy.Some? ==> budget == old(budget) - Cost(source) && |live| == |old(live)| + Cost(source)
      ensures copy.Some? ==> GainedMessage(old(live), live, copy.value)
      ensures copy.Some? ==> old(live) <= live && forall x: nat ::
                Owns(copy.value, x) == if x in live && x !in old(live) then 1 else 0
      decreases source, 5
    {
      if !source.genuine {
        return None;
      }
      var addr := Allocate();
      if addr.None? {
        return None;
      }
      ghost var taken := live;
      var fields, ok := CloneFields(source.fields);
      ghost var filled := live;
      var unknown := NullMany(0);
      if ok {
        unknown, ok := CloneValue(source.unknown);
      }
      var target := Message(addr.value, true, fields, unknown);
      MessageGained(old(live), taken, filled, live, target);
      if ok {
        forall x: nat
          ensures x in old(live) ==> x in live
          ensures Owns(target, x) == if x in live && x !in old(live) then 1 else 0
        {
          CopyIsSeparate(old(live), live, target, x);
        }
        return Some(target);
      }
      ghost var partial := live;
      FreeMessage(target);
      SameGain(old(live), partial, live, target);
      copy := None;
    }
  }

  // ----- the public copy of a Node

  /** A Node with neither a stored alternative nor unknown fields is refused.  Every other
      copy that fails is reported as a lack of memory, that of a malformed Node too. */
  method CloneNode(heap: Heap, source: Option<Message>) returns (status: Status, copy: Option<Message>)
    requires heap.Marked() && (source.Some? ==> source.value.fields.Union?)
    modifies heap
    ensures heap.Marked()
    ensures status == if source.None? then InvalidArgument
                      else if (source.value.fields.selected !in source.value.fields.ids
                               || source.value.fields.stored.None?) && NoElements(source.value.unknown)
                      then InternalError
                      else if Copies(source.value) && Cost(source.value) <= old(heap.budget) then Ok
                      else NoMemory
    ensures status == Ok <==> copy.Some?
    ensures status != Ok ==> heap.live == old(heap.live)
    ensures status == Ok ==> Same(source.value, copy.value)
                             && GainedMessage(old(heap.live), heap.live, copy.value)
  {
    if source.None? {
      return InvalidArgument, None;
    }
    var node := source.value.fields;
    if NoElements(source.value.unknown) && (node.selected !in node.ids || node.stored.None?) {
      return InternalError, None;
    }
    copy := heap.Clone(source.value);
    status := if copy.Some? then Ok else NoMemory;
  }

  // ----- what a copy is worth

  /** A copy owns its buffers alone: none twice, none that was live before, and
      nothing that was live before has gone. */
  lemma CopyIsSeparate(before: set<nat>, after: set<nat>, copy: Message, x: nat)
    requires GainedMessage(before, after, copy)
    ensures Owns(copy, x) <= 1
    ensures Owns(copy, x) == 1 <==> x in after && x !in before
    ensures x in before ==> x in after
  {
    assert Has(after, x) == Has(before, x) + Owns(copy, x);
  }

  lemma {:induction false} ItemsWorth(a: seq<Item>, b: seq<Item>)
    requires SameItems(a, b)
    ensures ItemsCost(a) == ItemsCost(b) && ItemsCopy(a) == ItemsCopy(b)
    decreases a, 1
  {
    if a != [] {
      var n := |a| - 1;
      ItemsWorth(a[..n], b[..n]);
      ItemWorth(a[n], b[n]);
    }
  }

  lemma {:induction false} ItemWorth(a: Item, b: Item)
    requires SameItem(a, b)
    ensures ItemCost(a) == ItemCost(b) && ItemCopies(a) == ItemCopies(b)
    decreases a, 0
  {
    if a.Child? && a.message.Some? {
      CopiesAlike(a.message.value, b.message.value);
    }
  }

  lemma {:induction false} ValueWorth(a: Value, b: Value)
    requires SameValue(a, b)
    ensures ValueCost(a) == ValueCost(b) && ValueCopies(a) == ValueCopies(b)
    decreases a, 2
  {
    if a.One? {
      ItemWorth(a.item, b.item);
    } else if a.Many? && a.items != [] {
      ItemsWorth(a.items, b.items);
    }
    assert a.Many? && a.items == [] ==> ItemsCopy(a.items);
    assert b.Many? && b.items == [] ==> ItemsCopy(b.items);
  }

  lemma {:induction false} SlotsWorth(a: seq<Value>, b: seq<Value>)
    requires SameSlots(a, b)
    ensures SlotsCost(a) == SlotsCost(b) && SlotsCopy(a) == SlotsCopy(b)
    decreases a, 3
  {
    if a != [] {
      var n := |a| - 1;
      SlotsWorth(a[..n], b[..n]);
      ValueWorth(a[n], b[n]);
    }
  }

  lemma {:induction false} FieldsWorth(a: Fields, b: Fields)
    requires SameFields(a, b)
    ensures FieldsCost(a) == FieldsCost(b) && FieldsCopy(a) == FieldsCopy(b)
    decreases a, 4
  {
    match a {
      case Record(slots) => SlotsWorth(slots, b.slots);
      case Union(ids, selected, stored) =>
        if selected in ids && stored.Some? {
          CopiesAlike(stored.value, b.stored.value);
        }
    }
  }

  /** Messages that differ only in where they are stored can be copied alike and at
      the same price: a copy is as good a source as its original. */
  lemma {:induction false} CopiesAlike(a: Message, b: Message)
    requires Same(a, b)
    ensures Cost(a) == Cost(b) && Copies(a) == Copies(b)
    decreases a, 5
  {
    FieldsWorth(a.fields, b.fields);
    ValueWorth(a.unknown, b.unknown);
  }

  // ----- which messages can be copied

  predicate InItem(x: Message, item: Item)
    decreases item, 0
  {
    item.Child? && item.message.Some? && Inside(x, item.message.value)
  }

  predicate InValue(x: Message, value: Value)
    decreases value, 2
  {
    match value
    case One(_, item) => InItem(x, item)
    case Many(_, items) => exists i | 0 <= i < |items| :: InItem(x, items[i])
    case _ => false
  }

  predicate InFields(x: Message, fields: Fields)
    decreases fields, 4
  {
    match fields
    case Record(slots) => exists i | 0 <= i < |slots| :: InValue(x, slots[i])
    case Union(ids, selected, stored) => selected in ids && stored.Some? && Inside(x, stored.value)
  }

  /** x is m or stands somewhere below it, in an alternative that is selected. */
  predicate Inside(x: Message, m: Message)
    decreases m, 5
  {
    x == m || InFields(x, m.fields) || InValue(x, m.unknown)
  }

  /** No unknown type, no array that is missing, and no bytes that are. */
  predicate Sound(value: Value) {
    match value
    case Inactive => true
    case Odd => false
    case One(_, item) => !IsTorn(item)
    case NullMany(count) => count == 0
    case Many(_, items) => forall i | 0 <= i < |items| :: !IsTorn(items[i])
  }

  /** Bytes with a length and no data. */
  predicate IsTorn(item: Item) {
    item.Bytes? && item.data.Null? && item.length > 0
  }

  /** The message itself gives a copy nothing to fail at but a lack of memory. */
  predicate Flawless(m: Message) {
    && m.genuine && Sound(m.unknown)
    && (m.fields.Record? ==> forall i | 0 <= i < |m.fields.slots| :: Sound(m.fields.slots[i]))
  }

  lemma {:induction false} ItemsCopyAll(items: seq<Item>)
    ensures ItemsCopy(items) <==> forall i | 0 <= i < |items| :: ItemCopies(items[i])
    decreases |items|
  {
    hide ItemCopies;
    if items != [] {
      ItemsCopyAll(items[..|items| - 1]);
    }
  }

  lemma {:induction false} SlotsCopyAll(slots: seq<Value>)
    ensures SlotsCopy(slots) <==> forall i | 0 <= i < |slots| :: ValueCopies(slots[i])
    decreases |slots|
  {
    hide ValueCopies;
    if slots != [] {
      SlotsCopyAll(slots[..|slots| - 1]);
    }
  }

  lemma {:induction false} ItemMeans(item: Item)
    ensures ItemCopies(item) <==> !IsTorn(item) && forall x | InItem(x, item) :: Flawless(x)
    decreases item, 0
  {
    if item.Child? && item.message.Some? {
      CopiesMean(item.message.value);
    }
  }

  lemma {:induction false} ValueMeans(value: Value)
    ensures ValueCopies(value) <==> Sound(value) && forall x | InValue(x, value) :: Flawless(x)
    decreases value, 2
  {
    hide ItemCopies, InItem, Flawless, IsTorn;
    match value {
      case One(_, item) => ItemMeans(item);
      case Many(_, items) =>
        ItemsCopyAll(items);
        forall i | 0 <= i < |items|
          ensures ItemCopies(items[i]) <==> !IsTorn(items[i]) && forall x | InItem(x, items[i]) :: Flawless(x)
        {
          ItemMeans(items[i]);
        }
      case _ =>
    }
  }

  lemma {:induction false} FieldsMean(fields: Fields)
    ensures FieldsCopy(fields)
       <==> && (fields.Record? ==> forall i | 0 <= i < |fields.slots| :: Sound(fields.slots[i]))
            && forall x | InFields(x, fields) :: Flawless(x)
    decreases fields, 4
  {
    hide ValueCopies, InValue, Flawless, Sound;
    match fields {
      case Record(slots) =>
        SlotsCopyAll(slots);
        forall i | 0 <= i < |slots|
          ensures ValueCopies(slots[i]) <==> Sound(slots[i]) && forall x | InValue(x, slots[i]) :: Flawless(x)
        {
          ValueMeans(slots[i]);
        }
      case Union(ids, selected, stored) =>
        if selected in ids && stored.Some? {
          CopiesMean(stored.value);
        }
    }
  }

  /** A message can be copied, given the memory, exactly if it and every message below it
      is flawless. */
  lemma {:induction false} CopiesMean(m: Message)
    ensures Copies(m) <==> forall x | Inside(x, m) :: Flawless(x)
    decreases m, 5
  {
    FieldsMean(m.fields);
    ValueMeans(m.unknown);
    InsideParts(m);
    hide FieldsCopy, ValueCopies, Inside, InFields, InValue, Sound;
    if Copies(m) {
      forall x | Inside(x, m) ensures Flawless(x) {
      }
    }
    if forall x | Inside(x, m) :: Flawless(x) {
      assert Inside(m, m) && Flawless(m);
      assert forall x | InFields(x, m.fields) :: Inside(x, m) && Flawless(x);
      assert forall x | InValue(x, m.unknown) :: Inside(x, m) && Flawless(x);
    }
  }

  lemma InsideParts(m: Message)
    ensures forall x :: Inside(x, m) <==> x == m || InFields(x, m.fields) || InValue(x, m.unknown)
  {
  }

  // ----- which buffers are owned

  predicate ItemHolds(item: Item, a: nat) {
    || (item.String? && item.text.Buffer? && item.text.addr == a)
    || (item.Bytes? && item.data.Buffer? && item.data.addr == a)
  }

  predicate ValueHolds(value: Value, a: nat) {
    match value
    case One(_, item) => ItemHolds(item, a)
    case Many(addr, items) => addr == a || exists i | 0 <= i < |items| :: ItemHolds(items[i], a)
    case _ => false
  }

  /** The message itself stands at the address, or one of its fields has its text, its
      bytes or its array there. */
  predicate Holds(m: Message, a: nat) {
    || m.addr == a || ValueHolds(m.unknown, a)
    || (m.fields.Record? && exists i | 0 <= i < |m.fields.slots| :: ValueHolds(m.fields.slots[i], a))
  }

  lemma {:induction false} ItemsOwnAny(items: seq<Item>, a: nat)
    ensures ItemsOwn(items, a) > 0 <==> exists i | 0 <= i < |items| :: ItemOwns(items[i], a) > 0
    decreases |items|
  {
    hide ItemOwns;
    if items != [] {
      ItemsOwnAny(items[..|items| - 1], a);
    }
  }

  lemma {:induction false} SlotsOwnAny(slots: seq<Value>, a: nat)
    ensures SlotsOwn(slots, a) > 0 <==> exists i | 0 <= i < |slots| :: ValueOwns(slots[i], a) > 0
    decreases |slots|
  {
    hide ValueOwns;
    if slots != [] {
      SlotsOwnAny(slots[..|slots| - 1], a);
    }
  }

  lemma {:induction false} ItemOwnsMeans(item: Item, a: nat)
    ensures ItemOwns(item, a) > 0 <==> ItemHolds(item, a) || exists x :: InItem(x, item) && Holds(x, a)
    decreases item, 0
  {
    hide Holds;
    if item.Child? && item.message.Some? {
      OwnsMean(item.message.value, a);
    }
  }

  lemma {:induction false} ValueOwnsMeans(value: Value, a: nat)
    ensures ValueOwns(value, a) > 0 <==> ValueHolds(value, a) || exists x :: InValue(x, value) && Holds(x, a)
    decreases value, 2
  {
    hide ItemOwns, ItemHolds, InItem, Holds;
    match value {
      case One(_, item) => ItemOwnsMeans(item, a);
      case Many(_, items) =>
        ItemsOwnAny(items, a);
        forall i | 0 <= i < |items|
          ensures ItemOwns(items[i], a) > 0
             <==> ItemHolds(items[i], a) || exists x :: InItem(x, items[i]) && Holds(x, a)
        {
          ItemOwnsMeans(items[i], a);
        }
      case _ =>
    }
  }

  lemma {:induction false} FieldsOwnMean(fields: Fields, a: nat)
    ensures FieldsOwn(fields, a) > 0
       <==> || (fields.Record? && exists i | 0 <= i < |fields.slots| :: ValueHolds(fields.slots[i], a))
            || exists x :: InFields(x, fields) && Holds(x, a)
    decreases fields, 4
  {
    hide ValueOwns, ValueHolds, InValue, Holds;
    match fields {
      case Record(slots) =>
        SlotsOwnAny(slots, a);
        forall i | 0 <= i < |slots|
          ensures ValueOwns(slots[i], a) > 0
             <==> ValueHolds(slots[i], a) || exists x :: InValue(x, slots[i]) && Holds(x, a)
        {
          ValueOwnsMeans(slots[i], a);
        }
      case Union(ids, selected, stored) =>
        if selected in ids && stored.Some? {
          OwnsMean(stored.value, a);
        }
    }
  }

  /** A message owns exactly the addresses that it and the messages below it hold. */
  lemma {:induction false} OwnsMean(m: Message, a: nat)
    ensures Owns(m, a) > 0 <==> exists x :: Inside(x, m) && Holds(x, a)
    decreases m, 5
  {
    FieldsOwnMean(m.fields, a);
    ValueOwnsMeans(m.unknown, a);
    InsideParts(m);
    hide FieldsOwn, ValueOwns, Inside, InFields, InValue, ValueHolds;
    assert Owns(m, a) == Is(m.addr, a) + FieldsOwn(m.fields, a) + ValueOwns(m.unknown, a);
    assert Inside(m, m);
    if Owns(m, a) > 0 && !Holds(m, a) {
      if FieldsOwn(m.fields, a) > 0 {
        var x :| InFields(x, m.fields) && Holds(x, a);
        assert Inside(x, m);
      } else {
        var x :| InValue(x, m.unknown) && Holds(x, a);
        assert Inside(x, m);
      }
    }
    if x :| Inside(x, m) && Holds(x, a) && x != m {
      assert InFields(x, m.fields) || InValue(x, m.unknown);
    }
  }

  // ----- what a partial copy owns

  lemma ChildGained(before: set<nat>, after: set<nat>, m: Option<Message>)
    requires if m.Some? then GainedMessage(before, after, m.value) else after == before
    ensures Gained(before, after, Child(m))
  {
    forall x: nat ensures Has(after, x) == Has(before, x) + ItemOwns(Child(m), x) {
    }
  }

  lemma OneGained(before: set<nat>, after: set<nat>, quantifier: bool, item: Item)
    requires Gained(before, after, item)
    ensures GainedValue(before, after, One(quantifier, item))
  {
    forall x: nat ensures Has(after, x) == Has(before, x) + ValueOwns(One(quantifier, item), x) {
    }
  }

  lemma ManyGained(before: set<nat>, taken: set<nat>, after: set<nat>, addr: nat, items: seq<Item>)
    requires addr !in before && taken == before + {addr} && GainedItems(taken, after, items)
    ensures GainedValue(before, after, Many(addr, items))
  {
    forall x: nat ensures Has(after, x) == Has(before, x) + ValueOwns(Many(addr, items), x) {
      assert Has(after, x) == Has(taken, x) + ItemsOwn(items, x);
    }
  }

  lemma RecordGained(before: set<nat>, after: set<nat>, slots: seq<Value>)
    requires GainedSlots(before, after, slots)
    ensures GainedFields(before, after, Record(slots))
  {
    forall x: nat ensures Has(after, x) == Has(before, x) + FieldsOwn(Record(slots), x) {
    }
  }

  lemma StoredGained(before: set<nat>, after: set<nat>, ids: seq<Id>, selected: nat, m: Option<Message>)
    requires selected in ids && if m.Some? then GainedMessage(before, after, m.value) else after == before
    ensures GainedFields(before, after, Union(ids, selected, m))
  {
    forall x: nat ensures Has(after, x) == Has(before, x) + FieldsOwn(Union(ids, selected, m), x) {
    }
  }

  lemma MessageGained(before: set<nat>, taken: set<nat>, filled: set<nat>, after: set<nat>, m: Message)
    requires m.addr !in before && taken == before + {m.addr}
    requires GainedFields(taken, filled, m.fields) && GainedValue(filled, after, m.unknown)
    ensures GainedMessage(before, after, m) && HeldMessage(after, m)
  {
    forall x: nat ensures Has(after, x) == Has(before, x) + Owns(m, x) {
      assert Has(after, x) == Has(filled, x) + ValueOwns(m.unknown, x)
             && Has(filled, x) == Has(taken, x) + FieldsOwn(m.fields, x);
    }
  }

  lemma ItemGained(start: set<nat>, before: set<nat>, after: set<nat>, done: seq<Item>, item: Item)
    requires GainedItems(start, before, done) && Gained(before, after, item)
    ensures GainedItems(start, after, done + [item])
  {
    assert (done + [item])[..|done|] == done;
    forall x: nat ensures Has(after, x) == Has(start, x) + ItemsOwn(done + [item], x) {
      assert Has(after, x) == Has(before, x) + ItemOwns(item, x);
    }
  }

  lemma SlotGained(start: set<nat>, before: set<nat>, after: set<nat>, done: seq<Value>, value: Value)
    requires GainedSlots(start, before, done) && GainedValue(before, after, value)
    ensures GainedSlots(start, after, done + [value])
  {
    assert (done + [value])[..|done|] == done;
    forall x: nat ensures Has(after, x) == Has(start, x) + SlotsOwn(done + [value], x) {
      assert Has(after, x) == Has(before, x) + ValueOwns(value, x);
    }
  }

  lemma SameAppended(items: seq<Item>, j: nat, done: seq<Item>, item: Item)
    requires j < |items| && SameItems(items[..j], done) && SameItem(items[j], item)
    ensures SameItems(items[..j + 1], done + [item])
  {
    hide SameItem;
    forall i | 0 <= i < j + 1 ensures SameItem(items[..j + 1][i], (done + [item])[i]) {
      assert i < j ==> items[..j][i] == items[i];
    }
  }

  lemma SameSlotAppended(slots: seq<Value>, j: nat, done: seq<Value>, value: Value)
    requires j < |slots| && SameSlots(slots[..j], done) && SameValue(slots[j], value)
    ensures SameSlots(slots[..j + 1], done + [value])
  {
    hide SameValue;
    forall i | 0 <= i < j + 1 ensures SameValue(slots[..j + 1][i], (done + [value])[i]) {
      assert i < j ==> slots[..j][i] == slots[i];
    }
  }

  lemma ItemsStart(items: seq<Item>)
    ensures ItemsCopy(items[..0]) && ItemsCost(items[..0]) == 0 && SameItems(items[..0], [])
  {
  }

  lemma SlotsStart(slots: seq<Value>)
    ensures SlotsCopy(slots[..0]) && SlotsCost(slots[..0]) == 0 && SameSlots(slots[..0], [])
  {
  }

  lemma NoItems(live: set<nat>)
    ensures GainedItems(live, live, [])
  {
  }

  lemma NoSlots(live: set<nat>)
    ensures GainedSlots(live, live, [])
  {
  }

  lemma ManyHeld(live: set<nat>, addr: nat, items: seq<Item>)
    requires HeldValue(live, Many(addr, items))
    ensures HeldItems(live, items) && addr in live && ItemsOwn(items, addr) == 0
  {
    assert ValueOwns(Many(addr, items), addr) <= Has(live, addr);
    forall x: nat ensures ItemsOwn(items, x) <= Has(live, x) {
      assert ValueOwns(Many(addr, items), x) <= Has(live, x);
    }
  }

  lemma MessageHeld(live: set<nat>, m: Message)
    requires HeldMessage(live, m)
    ensures HeldFields(live, m.fields)
  {
    forall x: nat ensures FieldsOwn(m.fields, x) <= Has(live, x) {
      assert Owns(m, x) <= Has(live, x);
    }
  }

  lemma UnknownHeld(start: set<nat>, live: set<nat>, m: Message)
    requires HeldMessage(start, m) && GainedFields(live, start, m.fields)
    ensures HeldValue(live, m.unknown)
  {
    forall x: nat ensures ValueOwns(m.unknown, x) <= Has(live, x) {
      assert Owns(m, x) <= Has(start, x) && Has(start, x) == Has(live, x) + FieldsOwn(m.fields, x);
    }
  }

  lemma MessageFreed(start: set<nat>, before: set<nat>, after: set<nat>, m: Message)
    requires HeldMessage(start, m) && GainedFields(before, start, m.fields) && GainedValue(after, before, m.unknown)
    ensures m.addr in after && GainedMessage(after - {m.addr}, start, m)
  {
    forall x: nat
      ensures x == m.addr ==> x in after
      ensures Has(start, x) == Has(after - {m.addr}, x) + Owns(m, x)
    {
      assert Owns(m, x) <= Has(start, x) && Has(start, x) == Has(before, x) + FieldsOwn(m.fields, x)
             && Has(before, x) == Has(after, x) + ValueOwns(m.unknown, x);
    }
  }
}

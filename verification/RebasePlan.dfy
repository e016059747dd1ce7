/** The write list of a rebase: filled while the tree is only read, applied later. */
module RebasePlan {
  import opened ProtoTree

  const INLINE_WRITES: nat := 64
  const MAX_WRITES: nat := 0xFFFF_FFFF_FFFF_FFFF / 16

  /** One pending store into a scalar slot of a message. */
  datatype Write = Write(owner: Message?, field: nat, value: int)

  predicate Fits(value: int) {
    -0x8000_0000 <= value <= 0x7FFF_FFFF
  }

  class Plan {
    var items: array?<Write>
    var count: nat
    const inlineWrites: array<Write>

    constructor ()
      ensures Valid() && Contents() == [] && items == null && fresh(inlineWrites)
    {
      items := null;
      count := 0;
      inlineWrites := new Write[INLINE_WRITES];
    }

    /** A released plan has no buffer; a live one is never larger than the program allows. */
    ghost predicate Valid()
      reads this, items
    {
      && inlineWrites.Length == INLINE_WRITES
      && (items == null ==> count == 0)
      && (items != null ==> count <= items.Length && INLINE_WRITES <= items.Length <= MAX_WRITES)
      && (items != null ==> forall k | 0 <= k < count :: Fits(items[k].value))
    }

    ghost function Contents(): seq<Write>
      requires Valid()
      reads this, items
    {
      if items == null then [] else items[..count]
    }

    method Start()
      requires Valid()
      modifies this
      ensures Valid() && Contents() == [] && items == inlineWrites
    {
      Release();
      items := inlineWrites;
    }

    method Release()
      requires Valid()
      modifies this
      ensures Valid() && Contents() == [] && items == null
    {
      items := null;
      count := 0;
    }

    /** Doubles the buffer; a failed allocation leaves the old one in place. */
    method Grow() returns (ok: bool)
      requires Valid() && items != null && count == items.Length
      modifies this
      ensures Valid() && Contents() == old(Contents()) && count == old(count) && items != null
      ensures if ok then fresh(items) && count < items.Length else items == old(items)
    {
      if items.Length >= MAX_WRITES {
        return false;
      }
      var capacity := if items.Length > MAX_WRITES / 2 then MAX_WRITES else items.Length * 2;
      if * {
        return false;
      }
      var grown := new Write[capacity];
      for i := 0 to count
        invariant items == old(items) && count == old(count) && grown.Length == capacity
        invariant forall k | 0 <= k < i :: grown[k] == items[k]
      {
        grown[i] := items[i];
      }
      items := grown;
      return true;
    }

    /** Records a store unless the slot already has the value.  Only a store that
        does not fit into the buffer can be refused. */
    method Record(owner: Message, field: nat, value: int32) returns (ok: bool)
      requires Valid() && items != null && field < |owner.scalars|
      modifies this, items
      ensures Valid() && items != null && (items == old(items) || fresh(items))
      ensures Contents() == if ok && owner.scalars[field] != value
                            then old(Contents()) + [Write(owner, field, value)] else old(Contents())
      ensures !ok ==> owner.scalars[field] != value && |Contents()| == old(items.Length) >= INLINE_WRITES
    {
      if owner.scalars[field] == value {
        return true;
      }
      if count == items.Length {
        ok := Grow();
        if !ok {
          return false;
        }
      }
      items[count] := Write(owner, field, value);
      count := count + 1;
      return true;
    }
  }
}

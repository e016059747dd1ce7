/** Editing the target list of a SELECT in place. */
module TargetEdits {
  import opened Wrappers
  import opened AstTree
  import opened OrdinalSearch
  import opened MessageWalk
  import opened TargetOrdinals

  const SIZE_MAX: nat := 0xFFFF_FFFF_FFFF_FFFF

  /** The longest array of node pointers that can be asked for. */
  const MAX_NODES: nat := 0x1FFF_FFFF_FFFF_FFFF

  // ----- the edits as functions of the list

  /** Targets parsed from text: at least one node, or the status of a refusal. */
  datatype Parsed<+A> = Nodes(nodes: seq<A>) | Refused(status: Status)

  datatype Edit<+A> =
    | ReplaceAll(all: Parsed<A>)
    | ReplaceOne(at: nat, with: Parsed<A>)
    | Insert(before: nat, node: Parsed<A>)
    | Delete(index: nat)

  /** The parser hands over at least one node, and exactly one for an insertion. */
  predicate Parses<A>(e: Edit<A>) {
    match e
    case ReplaceAll(all) => all.Nodes? ==> all.nodes != []
    case ReplaceOne(_, with) => with.Nodes? ==> with.nodes != []
    case Insert(_, node) => node.Nodes? ==> |node.nodes| == 1
    case Delete(_) => true
  }

  /** `memory` tells whether the new array can be allocated. */
  function Edited<A>(list: seq<A>, e: Edit<A>, memory: bool): (r: (seq<A>, Status))
    requires Parses(e)
    ensures list != [] ==> r.0 != []
    ensures r.1 != Ok ==> r.0 == list
  {
    match e
    case ReplaceAll(all) => if all.Refused? then (list, Failure(all)) else (all.nodes, Ok)
    case ReplaceOne(at, with) =>
      if at >= |list| then (list, InvalidArgument)
      else if with.Refused? then (list, Failure(with))
      else if |with.nodes| > SIZE_MAX - (|list| - 1) then (list, ResourceLimit)
      else if |with.nodes| > 1 && |list| > 1 && |list| - 1 + |with.nodes| > MAX_NODES then (list, ResourceLimit)
      else if |with.nodes| > 1 && |list| > 1 && !memory then (list, NoMemory)
      else (Spliced(list, at, 1, with.nodes), Ok)
    case Insert(before, node) =>
      if |list| == SIZE_MAX then (list, ResourceLimit)
      else if node.Refused? then (list, Failure(node))
      else if |list| + 1 > MAX_NODES then (list, ResourceLimit)
      else if !memory then (list, NoMemory)
      else (Spliced(list, if before > |list| then |list| else before, 0, node.nodes), Ok)
    case Delete(index) =>
      if index >= |list| then (list, InvalidArgument)
      else if |list| <= 1 then (list, Unsupported)
      else (Spliced(list, index, 1, []), Ok)
  }

  function Failure<A>(p: Parsed<A>): (s: Status)
    requires p.Refused?
    ensures s != Ok
  {
    if p.status == Ok then InternalError else p.status
  }

  // ----- what the edits mean

  /** From a place on `removed` entries give way to the items; everything else stays, in its
      order. */
  ghost predicate GiveWay<A>(before: seq<A>, after: seq<A>, at: nat, removed: nat, items: seq<A>) {
    && at + removed <= |before| && |after| == |before| - removed + |items|
    && (forall k | 0 <= k < at :: after[k] == before[k])
    && (forall k | at <= k < at + |items| :: after[k] == items[k - at])
    && (forall k | at + |items| <= k < |after| :: after[k] == before[k - |items| + removed])
  }

  lemma SplicedMeans<A>(s: seq<A>, at: nat, removed: nat, items: seq<A>)
    requires at + removed <= |s|
    ensures GiveWay(s, Spliced(s, at, removed, items), at, removed, items)
  {
  }

  /** Replacing one target needs the target to be there and text that parses; more than one
      node beside other targets also needs an array that can be asked for and allocated.
      Then the nodes stand where the target was. */
  lemma ReplacementMeans<A>(list: seq<A>, at: nat, nodes: seq<A>, memory: bool)
    requires nodes != []
    ensures var (after, status), length := Edited(list, ReplaceOne(at, Nodes(nodes)), memory), |list| - 1 + |nodes|;
            && (status == Ok <==> && at < |list| && length <= 0xFFFF_FFFF_FFFF_FFFF
                                  && (|nodes| == 1 || |list| == 1
                                      || (length <= 0x1FFF_FFFF_FFFF_FFFF && memory)))
            && (status == InvalidArgument <==> at >= |list|)
            && (status == NoMemory ==> !memory)
            && (status != Ok ==> after == list && status in {InvalidArgument, ResourceLimit, NoMemory})
            && (status == Ok ==> GiveWay(list, after, at, 1, nodes))
  {
    if at < |list| {
      SplicedMeans(list, at, 1, nodes);
    }
  }

  /** An insertion needs an array one longer, and happens at the end if the index is behind it. */
  lemma InsertionMeans<A>(list: seq<A>, before: nat, node: A, memory: bool)
    ensures var (after, status) := Edited(list, Insert(before, Nodes([node])), memory);
            && (status == Ok <==> |list| + 1 <= 0x1FFF_FFFF_FFFF_FFFF && memory)
            && (status == NoMemory <==> |list| + 1 <= 0x1FFF_FFFF_FFFF_FFFF && !memory)
            && (status == ResourceLimit <==> |list| + 1 > 0x1FFF_FFFF_FFFF_FFFF)
            && (status != Ok ==> after == list)
            && (status == Ok && before <= |list| ==> GiveWay(list, after, before, 0, [node]))
            && (status == Ok && before > |list| ==> after == list + [node])
  {
    SplicedMeans(list, if before > |list| then |list| else before, 0, [node]);
  }

  /** A deletion takes out one of several targets. */
  lemma DeletionMeans<A>(list: seq<A>, index: nat, memory: bool)
    ensures var (after, status) := Edited(list, Delete(index), memory);
            && (status == Ok <==> index < |list| && |list| >= 2)
            && (status == InvalidArgument <==> index >= |list|)
            && (status == Unsupported <==> index < |list| && |list| == 1)
            && (status != Ok ==> after == list)
            && (status == Ok ==> GiveWay(list, after, index, 1, []))
  {
    if index < |list| {
      SplicedMeans(list, index, 1, []);
    }
  }

  /** Text that does not parse changes nothing, and its refusal is passed on. */
  lemma RefusalMeans<A>(list: seq<A>, at: nat, refusal: Status, memory: bool)
    ensures Edited(list, ReplaceAll(Refused(refusal)), memory)
         == (list, if refusal == Ok then InternalError else refusal)
    ensures at < |list| ==> Edited(list, ReplaceOne(at, Refused(refusal)), memory)
                            == (list, if refusal == Ok then InternalError else refusal)
    ensures |list| != 0xFFFF_FFFF_FFFF_FFFF ==> Edited(list, Insert(at, Refused(refusal)), memory)
                                                == (list, if refusal == Ok then InternalError else refusal)
    ensures forall all: seq<A> | all != [] :: Edited(list, ReplaceAll(Nodes(all)), memory) == (all, Ok)
  {
  }

  // ----- the edits on the array

  /** A SELECT's target list: an array that may be longer than the list.  A commit that
      fails leaves the new list in place and poisons the handle. */
  class TargetList<A(0)> {
    var items: array<A>
    var count: nat
    var failed: bool

    predicate Valid()
      reads this
    {
      0 < count <= items.Length <= SIZE_MAX
    }

    function Contents(): seq<A>
      reads this, items
      requires Valid()
    {
      items[..count]
    }

    method Commit(commit: Status) returns (status: Status)
      modifies this`failed
      ensures status == commit && (failed <==> old(failed) || commit != Ok)
    {
      failed := failed || commit != Ok;
      status := commit;
    }

    /** Installs another array; an empty one is refused. */
    method Replace(nodes: array<A>, commit: Status) returns (status: Status)
      requires Valid() && nodes.Length <= SIZE_MAX
      modifies this
      ensures Valid() && status == if nodes.Length == 0 then InvalidArgument else commit
      ensures nodes.Length == 0 ==> items == old(items) && Contents() == old(Contents()) && failed == old(failed)
      ensures nodes.Length > 0
        ==> items == nodes && Contents() == nodes[..] && (failed <==> old(failed) || commit != Ok)
    {
      if nodes.Length == 0 {
        return InvalidArgument;
      }
      items, count := nodes, nodes.Length;
      status := Commit(commit);
    }

    method SetTarget(index: nat, with: Parsed<A>, memory: bool, commit: Status) returns (status: Status)
      requires Valid() && Parses(ReplaceOne(index, with)) && (with.Nodes? ==> |with.nodes| <= SIZE_MAX)
      modifies this, items
      ensures Valid()
      ensures var r := Edited(old(Contents()), ReplaceOne(index, with), memory);
              && Contents() == r.0 && status == (if r.1 == Ok then commit else r.1)
              && (failed <==> old(failed) || (r.1 == Ok && commit != Ok))
    {
      status := PutTarget(index, with, memory);
      if status == Ok {
        status := Commit(commit);
      }
    }

    method PutTarget(index: nat, with: Parsed<A>, memory: bool) returns (status: Status)
      requires Valid() && Parses(ReplaceOne(index, with)) && (with.Nodes? ==> |with.nodes| <= SIZE_MAX)
      modifies this, items
      ensures Valid() && (Contents(), status) == Edited(old(Contents()), ReplaceOne(index, with), memory)
      ensures failed == old(failed)
    {
      if index >= count {
        return InvalidArgument;
      }
      if with.Refused? {
        return Failure(with);
      }
      var nodes := with.nodes;
      if |nodes| == 1 {
        items[index] := nodes[0];
        assert items[..count] == Spliced(old(items[..count]), index, 1, nodes);
        return Ok;
      }
      if |nodes| > SIZE_MAX - (count - 1) {
        return ResourceLimit;
      }
      if count > 1 {
        if count - 1 + |nodes| > MAX_NODES {
          return ResourceLimit;
        }
        if !memory {
          return NoMemory;
        }
      }
      var next := SpliceCopy(items[..count], index, 1, nodes);
      items, count := next, next.Length;
      assert items[..count] == next[..];
      status := Ok;
    }

    /** Inserts one target in front of an index, or at the end if the index is too large. */
    method InsertTarget(index: nat, node: Parsed<A>, memory: bool, commit: Status) returns (status: Status)
      requires Valid() && Parses(Insert(index, node))
      modifies this, items
      ensures Valid()
      ensures var r := Edited(old(Contents()), Insert(index, node), memory);
              && Contents() == r.0 && status == (if r.1 == Ok then commit else r.1)
              && (failed <==> old(failed) || (r.1 == Ok && commit != Ok))
    {
      if count == SIZE_MAX {
        return ResourceLimit;
      }
      if node.Refused? {
        return Failure(node);
      }
      if count + 1 > MAX_NODES {
        return ResourceLimit;
      }
      if !memory {
        return NoMemory;
      }
      var at := if index > count then count else index;
      var next := SpliceCopy(items[..count], at, 0, node.nodes);
      items, count := next, count + 1;
      assert items[..count] == next[..];
      status := Commit(commit);
    }

    /** Shifts the later targets down by one; the last target is never deleted. */
    method DeleteTarget(index: nat, commit: Status) returns (status: Status)
      requires Valid()
      modifies this, items
      ensures Valid()
      ensures var r := Edited(old(Contents()), Delete(index), true);
              && Contents() == r.0 && status == (if r.1 == Ok then commit else r.1)
              && (failed <==> old(failed) || (r.1 == Ok && commit != Ok))
    {
      if index >= count {
        return InvalidArgument;
      }
      if count <= 1 {
        return Unsupported;
      }
      var i := index;
      while i + 1 < count
        invariant index <= i < count && Valid() && items == old(items) && count == old(count) && failed == old(failed)
        invariant forall k | 0 <= k < index :: items[k] == old(items[k])
        invariant forall k | index <= k < i :: items[k] == old(items[k + 1])
        invariant forall k | i < k < count :: items[k] == old(items[k])
      {
        items[i] := items[i + 1];
        i := i + 1;
      }
      count := count - 1;
      TakenOut(old(items[..count]), items[..count], index);
      status := Commit(commit);
    }
  }

  lemma TakenOut<A>(before: seq<A>, after: seq<A>, index: nat)
    requires index < |before| && |after| + 1 == |before|
    requires forall k | 0 <= k < index :: after[k] == before[k]
    requires forall k | index <= k < |after| :: after[k] == before[k + 1]
    ensures after == Spliced(before, index, 1, [])
  {
  }

  /** Copies a sequence into an array from a position on. */
  method Copy<A>(dest: array<A>, at: nat, source: seq<A>)
    requires at + |source| <= dest.Length
    modifies dest
    ensures forall k | 0 <= k < at :: dest[k] == old(dest[k])
    ensures forall k | 0 <= k < |source| :: dest[at + k] == source[k]
    ensures forall k | at + |source| <= k < dest.Length :: dest[k] == old(dest[k])
  {
    for i := 0 to |source|
      invariant forall k | 0 <= k < at :: dest[k] == old(dest[k])
      invariant forall k | 0 <= k < i :: dest[at + k] == source[k]
      invariant forall k | at + i <= k < dest.Length :: dest[k] == old(dest[k])
    {
      dest[at + i] := source[i];
    }
  }

  /** A new array with the part in front, the new nodes, and the part behind. */
  method SpliceCopy<A(0)>(source: seq<A>, at: nat, removed: nat, nodes: seq<A>) returns (next: array<A>)
    requires at + removed <= |source|
    ensures fresh(next) && next[..] == Spliced(source, at, removed, nodes)
  {
    next := new A[|source| - removed + |nodes|];
    Copy(next, 0, source[..at]);
    ghost var first := next[..];
    Copy(next, at, nodes);
    ghost var second := next[..];
    Copy(next, at + |nodes|, source[at + removed..]);
    CopiedThree(source[..at], nodes, source[at + removed..], first, second, next[..]);
  }

  /** Three stretches written one after the other. */
  lemma CopiedThree<A>(a: seq<A>, b: seq<A>, c: seq<A>, first: seq<A>, second: seq<A>, third: seq<A>)
    requires |first| == |second| == |third| == |a| + |b| + |c|
    requires Written(first, 0, a) && Written(second, |a|, b) && Written(third, |a| + |b|, c)
    requires SameBefore(first, second, |a|) && SameBefore(second, third, |a| + |b|)
    ensures third == a + b + c
  {
  }

  ghost predicate Written<A>(s: seq<A>, at: nat, part: seq<A>) {
    at + |part| <= |s| && forall k | 0 <= k < |part| :: s[at + k] == part[k]
  }

  ghost predicate SameBefore<A>(s: seq<A>, t: seq<A>, n: nat) {
    n <= |s| == |t| && forall k | 0 <= k < n :: s[k] == t[k]
  }

  // ----- whole runs

  function Run<A>(list: seq<A>, edits: seq<(Edit<A>, bool)>): (r: seq<A>)
    requires forall e | e in edits :: Parses(e.0)
    ensures list != [] ==> r != []
    decreases |edits|
  {
    if edits == [] then list else Run(Edited(list, edits[0].0, edits[0].1).0, edits[1..])
  }

  /** The tree after a run of edits, each of which installs the edited list in the
      SELECT with this identity. */
  function TreeAfter(t: Tree, id: nat, list: seq<MessageSlot>, edits: seq<(Edit<MessageSlot>, bool)>): Tree
    requires forall e | e in edits :: Parses(e.0)
    decreases |edits|
  {
    if edits == [] then t
    else
      var next := Edited(list, edits[0].0, edits[0].1).0;
      TreeAfter(SetTargets(t, id, next), id, next, edits[1..])
  }

  lemma {:induction false} RunIsOneEdit(t: Tree, id: nat, list: seq<MessageSlot>, edits: seq<(Edit<MessageSlot>, bool)>)
    requires edits != [] && list != [] && forall e | e in edits :: Parses(e.0)
    ensures TreeAfter(t, id, list, edits) == SetTargets(t, id, Run(list, edits))
    decreases |edits|
  {
    assert edits[0] in edits;
    var next := Edited(list, edits[0].0, edits[0].1).0;
    if |edits| > 1 {
      RunIsOneEdit(SetTargets(t, id, next), id, next, edits[1..]);
      EditAgain(t, id, next, Run(next, edits[1..]));
    }
  }

  /** Across any run of edits of the SELECT with ordinal k, refused ones included,
      its target list stays nonempty, the ordinals up to and including k keep
      resolving to the same SELECTs, and those behind its list shift by the SELECTs
      the final list has more or fewer than the first. */
  lemma OrdinalsAfterRun(t: Tree, k: nat, edits: seq<(Edit<MessageSlot>, bool)>)
    requires edits != [] && forall e | e in edits :: Parses(e.0)
    requires DistinctAddrs(Selects(t)) && k < |Selects(t)| && TargetsActive(Selects(t)[k].info)
    ensures var s := Selects(t)[k].info;
            && HasTargetList(s)
            && var list := Run(OldTargets(s), edits);
            && list != []
            && Shifted(SelectIds(t), SelectIds(TreeAfter(t, s.id, OldTargets(s), edits)), k + TargetsStart(s),
                       |ListIds(OldTargets(s))|, ListIds(list))
  {
    SelectsAreAccepted(t, k);
    var s := Selects(t)[k].info;
    var list := Run(OldTargets(s), edits);
    RunIsOneEdit(t, s.id, OldTargets(s), edits);
    OrdinalsAfterEdit(t, k, list);
  }
}

/** How many stores a rebase plans: one for each slot that changes, of every message, each
    time children lead to it. */
module RebaseStores {
  import opened Wrappers
  import opened SourceEdits
  import opened ProtoTree
  import opened TreeRebase
  import opened RebaseTransaction

  // ----- one message

  /** In how many of the first n places the two differ. */
  function Differences(was: seq<int>, now: seq<int>, n: nat): nat
    requires n <= |was| == |now|
  {
    if n == 0 then 0 else Differences(was, now, n - 1) + if was[n - 1] != now[n - 1] then 1 else 0
  }

  ghost function PairUpTo(edits: seq<Edit>, m: Message, scalars: seq<int>, n: nat): nat
    requires |scalars| == |m.descriptor.fields| && (m.descriptor.IsStatement() ==> m.descriptor.HasPair())
  {
    var d := m.descriptor;
    (if d.IsStatement() && d.stmtLocation < n then |StoreOf(edits, m, scalars, d.stmtLocation)| else 0)
    + if d.IsStatement() && d.stmtLen < n then |StoreOf(edits, m, scalars, d.stmtLen)| else 0
  }

  lemma {:induction false} DifferencesAre(edits: seq<Edit>, m: Message, scalars: seq<int>, n: nat)
    requires n <= |scalars| == |m.descriptor.fields| && (m.descriptor.IsStatement() ==> m.descriptor.HasPair())
    ensures Differences(scalars, RebasedScalars(edits, m, scalars), n)
         == PairUpTo(edits, m, scalars, n) + LocationCount(edits, m, scalars, 0, n)
  {
    hide MapPoint, StoreOf, Locates, RebasedScalars;
    if n > 0 {
      DifferencesAre(edits, m, scalars, n - 1);
      OneDifference(edits, m, scalars, n - 1);
    }
  }

  lemma OneDifference(edits: seq<Edit>, m: Message, scalars: seq<int>, i: nat)
    requires i < |scalars| == |m.descriptor.fields| && (m.descriptor.IsStatement() ==> m.descriptor.HasPair())
    ensures |StoreOf(edits, m, scalars, i)| == if scalars[i] != RebasedScalars(edits, m, scalars)[i] then 1 else 0
    ensures var d := m.descriptor;
            && (d.IsStatement() ==> d.stmtLocation != d.stmtLen)
            && (d.IsStatement() && i in {d.stmtLocation, d.stmtLen} ==> !Locates(m, i))
            && (!Locates(m, i) && !(d.IsStatement() && i in {d.stmtLocation, d.stmtLen}) ==>
                  StoreOf(edits, m, scalars, i) == [])
  {
    hide MapPoint, Message.IsActive;
  }

  lemma {:induction false} OnlyVisited(edits: seq<Edit>, m: Message, scalars: seq<int>, first: nat, end: nat, n: nat)
    requires m.Window() == Some((first, end)) && end <= |scalars| == |m.descriptor.fields| && n <= |scalars|
    requires m.descriptor.IsStatement() ==> m.descriptor.HasPair()
    ensures LocationCount(edits, m, scalars, 0, n)
         == LocationCount(edits, m, scalars, first, if n < end then n else end)
  {
    hide StoreOf, Message.Window;
    if n > 0 {
      OnlyVisited(edits, m, scalars, first, end, n - 1);
    }
  }

  /** A message needs one store for each of its slots that the rebase changes. */
  lemma OwnStores(edits: seq<Edit>, before: Snapshot, m: Message)
    requires m in before && |before[m]| == |m.descriptor.fields| && m.Window().Some?
    requires m.descriptor.IsStatement() ==> m.descriptor.HasPair()
    ensures OwnCount(edits, before, m)
         == Differences(before[m], RebasedScalars(edits, m, before[m]), |before[m]|)
  {
    hide StoreOf, LocationCount, Message.Window;
    DifferencesAre(edits, m, before[m], |before[m]|);
    OnlyVisited(edits, m, before[m], m.Window().value.0, m.Window().value.1, |before[m]|);
  }

  // ----- and everything below it

  /** The messages of a repeated field. */
  ghost function Present(items: seq<Message?>, k: nat): seq<Message>
    requires k <= |items|
  {
    if k == 0 then [] else Present(items, k - 1) + if items[k - 1] == null then [] else [items[k - 1]]
  }

  /** The messages that the first n fields hold as active children, in their order. */
  ghost function KidList(m: Message, n: nat): seq<Message>
    requires n <= |m.descriptor.fields| == |m.members| == |m.present|
  {
    if n == 0 then []
    else KidList(m, n - 1) + KidsOf(m, n - 1)
  }

  ghost function KidsOf(m: Message, i: nat): seq<Message>
    requires i < |m.descriptor.fields| == |m.members| == |m.present|
  {
    if !m.IsActive(i) || !m.descriptor.fields[i].fieldType.MessageField? then []
    else
      match m.members[i]
      case Array(items) => Present(items, |items|)
      case Single(child) => if child == null then [] else [child]
      case _ => []
  }

  ghost function Sum(edits: seq<Edit>, before: Snapshot, kids: seq<Message>, depth: nat): nat {
    if kids == [] then 0
    else Sum(edits, before, kids[..|kids| - 1], depth) + Total(edits, before, kids[|kids| - 1], depth)
  }

  lemma {:induction false} SumJoin(edits: seq<Edit>, before: Snapshot, a: seq<Message>, b: seq<Message>, depth: nat)
    ensures Sum(edits, before, a + b, depth) == Sum(edits, before, a, depth) + Sum(edits, before, b, depth)
    decreases |b|
  {
    hide Total;
    if b == [] {
      assert a + b == a;
    } else {
      assert (a + b)[..|a + b| - 1] == a + b[..|b| - 1];
      SumJoin(edits, before, a, b[..|b| - 1], depth);
    }
  }

  lemma SumOne(edits: seq<Edit>, before: Snapshot, m: Message, depth: nat)
    ensures Sum(edits, before, [m], depth) == Total(edits, before, m, depth)
  {
    hide Total;
    assert [m][..0] == [];
  }

  lemma {:induction false} ItemsSum(edits: seq<Edit>, before: Snapshot, items: seq<Message?>, k: nat, depth: nat)
    requires depth <= MAX_DEPTH && k <= |items|
    ensures ItemsTotal(edits, before, items, k, depth) == Sum(edits, before, Present(items, k), depth + 1)
  {
    hide Total, Sum;
    if k > 0 {
      ItemsSum(edits, before, items, k - 1, depth);
      if items[k - 1] != null {
        SumOne(edits, before, items[k - 1], depth + 1);
        SumJoin(edits, before, Present(items, k - 1), [items[k - 1]], depth + 1);
      } else {
        assert Present(items, k) == Present(items, k - 1);
      }
    } else {
      NoSum(edits, before, depth + 1);
    }
  }

  lemma NoSum(edits: seq<Edit>, before: Snapshot, depth: nat)
    ensures Sum(edits, before, [], depth) == 0
  {
  }

  lemma {:induction false} ChildrenSum(edits: seq<Edit>, before: Snapshot, m: Message, first: nat, end: nat, n: nat,
                                       depth: nat)
    requires depth <= MAX_DEPTH && n <= |m.descriptor.fields| == |m.members| == |m.present|
    requires m.Window() == Some((first, end)) && end <= |m.descriptor.fields|
    ensures Sum(edits, before, KidList(m, n), depth + 1)
         == ChildrenTotal(edits, before, m, first, if n < end then n else end, depth)
  {
    hide Total, Sum, Message.Window, Message.ActivityOf, KidsOf, FieldTotal;
    NoSum(edits, before, depth + 1);
    if n > 0 {
      ChildrenSum(edits, before, m, first, end, n - 1, depth);
      var here := KidsOf(m, n - 1);
      SumJoin(edits, before, KidList(m, n - 1), here, depth + 1);
      FieldSum(edits, before, m, n - 1, depth);
    }
  }

  lemma FieldSum(edits: seq<Edit>, before: Snapshot, m: Message, i: nat, depth: nat)
    requires depth <= MAX_DEPTH && i < |m.descriptor.fields| == |m.members| == |m.present|
    ensures Sum(edits, before, KidsOf(m, i), depth + 1)
         == if m.Visits(i) then FieldTotal(edits, before, m, i, depth) else 0
  {
    hide Total, Sum, Message.Window, Message.ActivityOf, Present, ItemsTotal;
    NoSum(edits, before, depth + 1);
    if m.IsActive(i) && m.descriptor.fields[i].fieldType.MessageField? {
      match m.members[i] {
        case Array(items) => ItemsSum(edits, before, items, |items|, depth);
        case Single(child) =>
          if child != null {
            SumOne(edits, before, child, depth + 1);
          }
        case _ =>
      }
    }
  }

  /** Where the walk goes no further there are none. */
  lemma NoStores(edits: seq<Edit>, before: Snapshot, m: Message, depth: nat)
    requires depth > 512 || m.Window().None?
    ensures Total(edits, before, m, depth) == 0
  {
  }

  /** The stores for a message are those for the slots of its own that change and those for
      each of its active children. */
  lemma StoresMean(edits: seq<Edit>, before: Snapshot, m: Message, depth: nat)
    requires depth <= 512 && m in before && m.Window().Some?
    requires |before[m]| == |m.descriptor.fields| == |m.members| == |m.present|
    requires m.descriptor.IsStatement() ==> m.descriptor.HasPair()
    ensures Total(edits, before, m, depth)
         == Differences(before[m], RebasedScalars(edits, m, before[m]), |before[m]|)
            + Sum(edits, before, KidList(m, |m.members|), depth + 1)
  {
    hide OwnCount, ChildrenTotal, Sum, KidList, Message.Window, Differences;
    OwnStores(edits, before, m);
    ChildrenSum(edits, before, m, m.Window().value.0, m.Window().value.1, |m.members|, depth);
  }
}

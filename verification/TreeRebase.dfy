/** Re-anchoring every source coordinate of a tree, in two phases: `Build` only
    reads the tree and fills a plan, `Apply` performs the plan's stores. */
module TreeRebase {
  import opened Wrappers
  import opened SourceEdits
  import opened ProtoTree
  import opened RebaseCursor
  import opened RebasePlan

  const MAX_DEPTH: nat := 512

  // ----- field classification

  predicate Contains(name: string, part: string)
    decreases |name|
  {
    part <= name || (name != "" && Contains(name[1..], part))
  }

  predicate EndsWith(name: string, suffix: string) {
    |suffix| <= |name| && name[|name| - |suffix|..] == suffix
  }

  predicate NamesPair(name: string) {
    name == "stmt_location" || name == "stmt_len"
  }

  predicate NamesLocation(name: string) {
    name == "location" || name == "name_location"
  }

  /** A scalar that looks like a source coordinate of an unknown schema. */
  predicate UnhandledSourceField(f: Field, name: string) {
    && !f.fieldType.MessageField? && !f.fieldType.StringField?
    && (Contains(name, "location") || "source_" <= name || EndsWith(name, "_offset") || EndsWith(name, "_length")
        || EndsWith(name, "_len") || EndsWith(name, "_start") || EndsWith(name, "_end"))
  }

  predicate PlainInt32(f: Field) {
    f.fieldType.Int32Field? && f.cardinality != Repeated
  }

  predicate TablespacePath(kind: Kind, f: Field, name: string) {
    kind == CreateTableSpaceKind && f.fieldType.StringField? && name == "location"
  }

  // ----- the reference: one message, one slot

  /** Slot i of an active location field. */
  ghost predicate Locates(m: Message, i: nat) {
    && m.IsActive(i)
    && var f := m.descriptor.fields[i];
    && f.name.Some? && NamesLocation(f.name.value) && PlainInt32(f)
  }

  /** The value slot i has after the rebase: statement pairs move by their two
      endpoints, active nonnegative locations are mapped once, all else stays. */
  ghost function Rebased(edits: seq<Edit>, m: Message, scalars: seq<int>, i: nat): int
    requires i < |scalars| == |m.descriptor.fields|
    requires m.descriptor.IsStatement() ==> m.descriptor.HasPair()
  {
    var d := m.descriptor;
    if d.IsStatement() && i == d.stmtLocation then
      if scalars[i] < 0 then scalars[i] else MapPoint(edits, scalars[i])
    else if d.IsStatement() && i == d.stmtLen then
      if scalars[i] == 0 then 0
      else MapPoint(edits, scalars[d.stmtLocation] + scalars[i]) - MapPoint(edits, scalars[d.stmtLocation])
    else if Locates(m, i) && scalars[i] >= 0 then MapPoint(edits, scalars[i])
    else scalars[i]
  }

  // ----- the reference: which trees are eligible

  /** The coordinates before the rebase, message by message. */
  type Snapshot = map<Message, seq<int>>

  datatype Setting = Setting(edits: seq<Edit>, oldLength: nat, newLength: nat, accept: (Message, bool) -> bool)

  /** The statement pair can be moved. */
  ghost predicate PairOk(s: Setting, m: Message, scalars: seq<int>)
    requires m.descriptor.IsStatement() ==> m.descriptor.HasPair()
    requires |scalars| == |m.descriptor.fields|
  {
    m.descriptor.IsStatement() ==>
      PairAccepted(s.edits, s.oldLength, scalars[m.descriptor.stmtLocation], scalars[m.descriptor.stmtLen])
  }

  /** The first pass lets field i through. */
  ghost predicate FieldOk(s: Setting, m: Message, scalars: seq<int>, i: nat)
    requires i < |scalars| == |m.descriptor.fields| == |m.present|
  {
    var f := m.descriptor.fields[i];
    && m.ActivityOf(i) != Corrupt && f.name.Some?
    && (m.ActivityOf(i) == Active ==>
          var name := f.name.value;
          if NamesPair(name) then m.descriptor.IsStatement() && PlainInt32(f)
          else if NamesLocation(name) then
            TablespacePath(m.descriptor.kind, f, name)
            || (PlainInt32(f) && (scalars[i] >= 0 ==> PointAccepted(s.edits, s.oldLength, scalars[i])))
          else !UnhandledSourceField(f, name))
  }

  ghost predicate FieldsOk(s: Setting, m: Message, scalars: seq<int>, first: nat, end: nat)
    requires end <= |scalars| == |m.descriptor.fields| == |m.present|
  {
    forall i | first <= i < end :: FieldOk(s, m, scalars, i)
  }

  lemma FieldsOkStep(s: Setting, m: Message, scalars: seq<int>, first: nat, i: nat, end: nat)
    requires first <= i < end <= |scalars| == |m.descriptor.fields| == |m.present|
    ensures FieldsOk(s, m, scalars, first, i) && FieldOk(s, m, scalars, i) ==> FieldsOk(s, m, scalars, first, i + 1)
    ensures FieldsOk(s, m, scalars, first, end) ==> FieldOk(s, m, scalars, i)
  {
    hide FieldOk;
  }

  /** The second pass finds the children of field i present and of the right type. */
  ghost predicate MembersOk(m: Message, i: nat)
    requires i < |m.descriptor.fields| == |m.members| == |m.present|
  {
    var f := m.descriptor.fields[i];
    f.fieldType.MessageField? ==>
      && m.ActivityOf(i) != Corrupt
      && (m.ActivityOf(i) == Active ==>
            match m.members[i]
            case MissingArray => false
            case Array(items) => forall k | 0 <= k < |items| :: OfKind(items[k], f.fieldType.target)
            case Single(child) =>
              if child == null then f.oneof.None? && f.cardinality != Required else OfKind(child, f.fieldType.target)
            case NotMessage => true)
  }

  ghost predicate OfKind(child: Message?, target: Kind) {
    child != null && child.descriptor.kind == target
  }

  /** The checks on m that come before its fields. */
  ghost predicate HeadOk(s: Setting, m: Message, depth: nat, owned: bool, underTypeName: bool) {
    && depth <= MAX_DEPTH
    && m.genuine
    && m.Window().Some?
    && (m.descriptor.kind == AConstKind ==> owned && s.accept(m, underTypeName))
  }

  predicate UnderTypeName(m: Message, underTypeName: bool) {
    underTypeName || m.descriptor.kind == TypeNameKind
  }

  /** The checks of the first pass, over the statement pair and all visited fields. */
  ghost predicate OwnOk(s: Setting, before: Snapshot, m: Message) {
    && m in before
    && |before[m]| == |m.descriptor.fields| == |m.present|
    && (m.descriptor.IsStatement() ==> m.descriptor.HasPair())
    && PairOk(s, m, before[m])
    && m.Window().Some?
    && FieldsOk(s, m, before[m], m.Window().value.0, m.Window().value.1)
  }

  ghost predicate AllMembersOk(m: Message) {
    && |m.descriptor.fields| == |m.members| == |m.present|
    && m.Window().Some?
    && (forall i | m.Window().value.0 <= i < m.Window().value.1 :: MembersOk(m, i))
  }

  /** The tree below m passes every check of the walk. */
  ghost predicate Eligible(s: Setting, before: Snapshot, m: Message, depth: nat, owned: bool, underTypeName: bool)
    decreases MAX_DEPTH + 1 - depth
  {
    && HeadOk(s, m, depth, owned, UnderTypeName(m, underTypeName))
    && OwnOk(s, before, m)
    && AllMembersOk(m)
    && (forall c | c in m.Kids() :: Eligible(s, before, c, depth + 1, true, UnderTypeName(m, underTypeName)))
  }

  // ----- reachability

  ghost predicate Reaches(m: Message, x: Message, steps: nat) {
    if steps == 0 then x == m else exists c | c in m.Kids() :: Reaches(c, x, steps - 1)
  }

  /** A set of messages with all their active children. */
  ghost predicate Closed(group: set<Message>) {
    forall x | x in group :: x.Kids() <= group
  }

  ghost predicate Below(m: Message, x: Message) {
    exists steps: nat :: Reaches(m, x, steps)
  }

  // ----- the reference: what a plan must hold

  ghost predicate RightWrite(edits: seq<Edit>, before: Snapshot, group: set<Message>, w: Write) {
    && w.owner != null && w.owner in group && w.owner in before
    && w.field < |before[w.owner]| == |w.owner.descriptor.fields|
    && (w.owner.descriptor.IsStatement() ==> w.owner.descriptor.HasPair())
    && w.value == Rebased(edits, w.owner, before[w.owner], w.field)
    && Fits(w.value)
  }

  /** The list grew by right writes to the group only. */
  ghost predicate Grown(edits: seq<Edit>, before: Snapshot, group: set<Message>, from: seq<Write>, to: seq<Write>) {
    && from <= to
    && (forall k | |from| <= k < |to| :: RightWrite(edits, before, group, to[k]))
  }

  /** The store slot i of m needs: none when it keeps its value. */
  ghost function StoreOf(edits: seq<Edit>, m: Message, scalars: seq<int>, i: nat): seq<Write>
    requires i < |scalars| == |m.descriptor.fields|
    requires m.descriptor.IsStatement() ==> m.descriptor.HasPair()
  {
    var value := Rebased(edits, m, scalars, i);
    if value == scalars[i] then [] else [Write(m, i, value)]
  }

  ghost predicate HasWrite(writes: seq<Write>, m: Message, i: nat) {
    exists k | 0 <= k < |writes| :: writes[k].owner == m && writes[k].field == i
  }

  /** Every slot of m that changes is in the list. */
  ghost predicate Planned(edits: seq<Edit>, before: Snapshot, writes: seq<Write>, m: Message) {
    && m in before && |before[m]| == |m.descriptor.fields|
    && (m.descriptor.IsStatement() ==> m.descriptor.HasPair())
    && (forall i | 0 <= i < |before[m]| :: Rebased(edits, m, before[m], i) != before[m][i] ==> HasWrite(writes, m, i))
  }

  lemma HasWriteStays(from: seq<Write>, to: seq<Write>, m: Message, i: nat)
    requires from <= to && HasWrite(from, m, i)
    ensures HasWrite(to, m, i)
  {
    var k :| 0 <= k < |from| && from[k].owner == m && from[k].field == i;
    assert to[k] == from[k];
  }

  lemma PlannedStays(edits: seq<Edit>, before: Snapshot, from: seq<Write>, to: seq<Write>, m: Message)
    requires from <= to && Planned(edits, before, from, m)
    ensures Planned(edits, before, to, m)
  {
    forall i | 0 <= i < |before[m]| && Rebased(edits, m, before[m], i) != before[m][i]
      ensures HasWrite(to, m, i)
    {
      HasWriteStays(from, to, m, i);
    }
  }

  /** A finished part of the walk: closed under children, and its changes are planned. */
  ghost predicate Certified(edits: seq<Edit>, before: Snapshot, group: set<Message>, from: seq<Write>, to: seq<Write>) {
    && Closed(group) && group <= before.Keys
    && Grown(edits, before, group, from, to)
    && (forall x | x in group :: Planned(edits, before, to, x))
  }

  lemma CertifiedJoin(edits: seq<Edit>, before: Snapshot, g: set<Message>, h: set<Message>,
                      a: seq<Write>, b: seq<Write>, c: seq<Write>)
    requires Certified(edits, before, g, a, b) && Certified(edits, before, h, b, c)
    ensures Certified(edits, before, g + h, a, c)
  {
    GrownJoin(edits, before, g, h, g + h, a, b, c);
    forall x | x in g + h ensures Planned(edits, before, c, x) {
      if x in g {
        PlannedStays(edits, before, b, c, x);
      }
    }
  }

  /** The group consists of the roots and of messages below them. */
  ghost predicate Rooted(roots: set<Message>, group: set<Message>) {
    roots <= group && forall x | x in group :: BelowSome(roots, x)
  }

  ghost predicate BelowSome(roots: set<Message>, x: Message) {
    exists c | c in roots :: Below(c, x)
  }

  lemma RootedJoin(k: set<Message>, g: set<Message>, l: set<Message>, h: set<Message>)
    requires Rooted(k, g) && Rooted(l, h)
    ensures Rooted(k + l, g + h)
  {
    forall x | x in g + h ensures BelowSome(k + l, x) {
      if x in g {
        assert BelowSome(k, x);
      } else {
        assert BelowSome(l, x);
      }
    }
  }

  /** The children of a message walked so far, and everything below them. */
  datatype Part = Part(kids: set<Message>, group: set<Message>)

  ghost predicate Done(s: Setting, before: Snapshot, depth: nat, underTypeName: bool, part: Part,
                       from: seq<Write>, to: seq<Write>)
  {
    && Certified(s.edits, before, part.group, from, to)
    && Rooted(part.kids, part.group)
    && (forall c | c in part.kids :: Eligible(s, before, c, depth, true, underTypeName))
  }

  lemma DoneJoin(s: Setting, before: Snapshot, depth: nat, underTypeName: bool, done: Part, child: Message,
                 group: set<Message>, a: seq<Write>, b: seq<Write>, c: seq<Write>)
    requires Done(s, before, depth, underTypeName, done, a, b)
    requires Certified(s.edits, before, group, b, c) && Rooted({child}, group)
    requires Eligible(s, before, child, depth, true, underTypeName)
    ensures Done(s, before, depth, underTypeName, Part(done.kids + {child}, done.group + group), a, c)
  {
    hide Certified, Rooted, Eligible;
    CertifiedJoin(s.edits, before, done.group, group, a, b, c);
    RootedJoin(done.kids, done.group, {child}, group);
  }

  ghost predicate ItemOk(s: Setting, before: Snapshot, child: Message?, target: Kind, depth: nat, underTypeName: bool) {
    OfKind(child, target) && Eligible(s, before, child, depth, true, underTypeName)
  }

  /** The first k children of a repeated field pass. */
  ghost predicate ItemsOk(s: Setting, before: Snapshot, items: seq<Message?>, k: nat, target: Kind, depth: nat,
                          underTypeName: bool)
    requires k <= |items|
  {
    forall j | 0 <= j < k :: ItemOk(s, before, items[j], target, depth, underTypeName)
  }

  lemma ItemsOkStep(s: Setting, before: Snapshot, items: seq<Message?>, k: nat, target: Kind, depth: nat,
                    underTypeName: bool)
    requires k < |items|
    ensures ItemsOk(s, before, items, k + 1, target, depth, underTypeName)
       <==> ItemsOk(s, before, items, k, target, depth, underTypeName)
            && ItemOk(s, before, items[k], target, depth, underTypeName)
    ensures ItemsOk(s, before, items, |items|, target, depth, underTypeName)
        ==> ItemOk(s, before, items[k], target, depth, underTypeName)
  {
    hide ItemOk;
  }

  /** The children of field i, and everything below them, pass. */
  ghost predicate ChildrenOk(s: Setting, before: Snapshot, m: Message, i: nat, depth: nat, underTypeName: bool) {
    && i < |m.descriptor.fields| == |m.members| == |m.present|
    && MembersOk(m, i)
    && (forall c | c in m.KidsAt(i) :: Eligible(s, before, c, depth, true, underTypeName))
  }

  ghost predicate SomeKidFails(s: Setting, before: Snapshot, m: Message, depth: nat, underTypeName: bool) {
    exists c | c in m.Kids() :: !Eligible(s, before, c, depth, true, underTypeName)
  }

  lemma EligibleUnfolds(s: Setting, before: Snapshot, m: Message, depth: nat, owned: bool, underTypeName: bool)
    ensures Eligible(s, before, m, depth, owned, underTypeName)
       <==> HeadOk(s, m, depth, owned, UnderTypeName(m, underTypeName)) && OwnOk(s, before, m) && AllMembersOk(m)
            && !SomeKidFails(s, before, m, depth + 1, UnderTypeName(m, underTypeName))
  {
    hide OwnOk, AllMembersOk;
  }

  ghost predicate MembersPass(m: Message, first: nat, end: nat)
    requires end <= |m.descriptor.fields| == |m.members| == |m.present|
  {
    forall i | first <= i < end :: MembersOk(m, i)
  }

  lemma MembersPassStep(m: Message, first: nat, i: nat)
    requires i < |m.descriptor.fields| == |m.members| == |m.present|
    requires MembersPass(m, first, i) && MembersOk(m, i)
    ensures MembersPass(m, first, i + 1)
    ensures first <= i ==> m.KidsBetween(first, i + 1) == m.KidsBetween(first, i) + m.KidsAt(i)
  {
    hide MembersOk;
  }

  lemma StartOfChildren(s: Setting, before: Snapshot, m: Message, first: nat, depth: nat, underTypeName: bool,
                        writes: seq<Write>)
    requires first <= |m.descriptor.fields| == |m.members| == |m.present|
    ensures MembersPass(m, first, first) && m.KidsBetween(first, first) == {}
    ensures Done(s, before, depth, underTypeName, Part({}, {}), writes, writes)
  {
  }

  lemma AllPass(m: Message, first: nat, end: nat)
    requires m.Window() == Some((first, end)) && |m.descriptor.fields| == |m.members| == |m.present|
    requires MembersPass(m, first, end)
    ensures AllMembersOk(m) && m.KidsBetween(first, end) == m.Kids()
  {
    hide MembersOk;
    forall i, c | 0 <= i < |m.members| && c in m.KidsAt(i) ensures c in m.KidsBetween(first, end) {
      assert m.Visits(i);
    }
  }

  lemma FieldFails(s: Setting, before: Snapshot, m: Message, first: nat, i: nat, end: nat, depth: nat,
                   underTypeName: bool)
    requires m.Window() == Some((first, end)) && |m.descriptor.fields| == |m.members| == |m.present|
    requires first <= i < end
    ensures !ChildrenOk(s, before, m, i, depth, underTypeName)
        ==> !AllMembersOk(m) || SomeKidFails(s, before, m, depth, underTypeName)
  {
    hide MembersOk, Eligible;
    assert m.KidsAt(i) <= m.Kids();
  }

  lemma BelowChild(m: Message, c: Message, x: Message)
    requires c in m.Kids() && Below(c, x)
    ensures Below(m, x)
  {
    var steps: nat :| Reaches(c, x, steps);
    assert Reaches(m, x, steps + 1);
  }

  /** A message with a finished set of children is finished. */
  lemma WholeCertified(s: Setting, before: Snapshot, m: Message, depth: nat, underTypeName: bool, part: Part,
                       a: seq<Write>, b: seq<Write>, c: seq<Write>)
    requires m in before && Grown(s.edits, before, {m}, a, b) && Planned(s.edits, before, b, m)
    requires Done(s, before, depth, underTypeName, part, b, c) && part.kids == m.Kids()
    ensures Certified(s.edits, before, {m} + part.group, a, c) && Rooted({m}, {m} + part.group)
    ensures !SomeKidFails(s, before, m, depth, underTypeName)
  {
    hide Eligible, Grown, Planned, Closed, Certified, Rooted, Done, SomeKidFails;
    DoneParts(s, before, m, depth, underTypeName, part, b, c);
    CertifiedParts(s.edits, before, part.group, b, c);
    GrownJoin(s.edits, before, {m}, part.group, {m} + part.group, a, b, c);
    PrefixOf(s.edits, before, part.group, b, c);
    PlannedStays(s.edits, before, b, c, m);
    RootsInside(part.kids, part.group);
    CertifiedWith(s.edits, before, m, part.kids, part.group, a, c);
    WholeRooted(m, part.kids, part.group);
  }

  lemma DoneParts(s: Setting, before: Snapshot, m: Message, depth: nat, underTypeName: bool, part: Part,
                  b: seq<Write>, c: seq<Write>)
    requires Done(s, before, depth, underTypeName, part, b, c) && part.kids == m.Kids()
    ensures Certified(s.edits, before, part.group, b, c) && Rooted(part.kids, part.group)
    ensures !SomeKidFails(s, before, m, depth, underTypeName)
  {
    hide Eligible, Certified, Rooted;
  }

  lemma CertifiedParts(edits: seq<Edit>, before: Snapshot, group: set<Message>, b: seq<Write>, c: seq<Write>)
    requires Certified(edits, before, group, b, c)
    ensures Closed(group) && group <= before.Keys && Grown(edits, before, group, b, c)
    ensures forall x | x in group :: Planned(edits, before, c, x)
  {
    hide Closed, Grown, Planned;
  }

  lemma CertifiedWith(edits: seq<Edit>, before: Snapshot, m: Message, kids: set<Message>, group: set<Message>,
                      a: seq<Write>, c: seq<Write>)
    requires m in before && kids == m.Kids() && kids <= group
    requires Closed(group) && group <= before.Keys && Grown(edits, before, {m} + group, a, c)
    requires Planned(edits, before, c, m) && forall x | x in group :: Planned(edits, before, c, x)
    ensures Certified(edits, before, {m} + group, a, c)
  {
    hide Grown, Planned, BelowSome;
  }

  lemma RootsInside(roots: set<Message>, group: set<Message>)
    requires Rooted(roots, group)
    ensures roots <= group
  {
  }

  lemma PrefixOf(edits: seq<Edit>, before: Snapshot, group: set<Message>, from: seq<Write>, to: seq<Write>)
    requires Grown(edits, before, group, from, to)
    ensures from <= to
  {
  }

  lemma WholeRooted(m: Message, kids: set<Message>, group: set<Message>)
    requires Rooted(kids, group) && kids == m.Kids()
    ensures Rooted({m}, {m} + group)
  {
    hide Below;
    forall x | x in {m} + group ensures BelowSome({m}, x) {
      if x == m {
        BelowItself(m);
      } else {
        assert BelowSome(kids, x);
        var kid :| kid in kids && Below(kid, x);
        BelowChild(m, kid, x);
      }
    }
  }

  lemma BelowItself(m: Message)
    ensures Below(m, m)
  {
    assert Reaches(m, m, 0);
  }

  lemma KidsOfField(m: Message, i: nat, before: Snapshot)
    requires i < |m.members| && m.Kids() <= before.Keys
    ensures m.KidsAt(i) <= before.Keys
  {
  }

  lemma NoItems(s: Setting, before: Snapshot, items: seq<Message?>, target: Kind, depth: nat, underTypeName: bool)
    ensures ItemsOk(s, before, items, 0, target, depth, underTypeName)
  {
  }

  lemma NonNullStep(items: seq<Message?>, k: nat)
    requires k < |items|
    ensures items[k] != null ==> items[k] in NonNull(Array(items))
                                 && NonNull(Array(items[..k + 1])) == NonNull(Array(items[..k])) + {items[k]}
  {
    assert items[..k + 1] == items[..k] + [items[k]];
  }

  lemma NonNullEnds(items: seq<Message?>)
    ensures NonNull(Array(items[..0])) == {} && NonNull(Array(items[..|items|])) == NonNull(Array(items))
  {
    assert items[..|items|] == items;
  }

  lemma GrownJoin(edits: seq<Edit>, before: Snapshot, g: set<Message>, h: set<Message>, group: set<Message>,
                  a: seq<Write>, b: seq<Write>, c: seq<Write>)
    requires Grown(edits, before, g, a, b) && Grown(edits, before, h, b, c) && g <= group && h <= group
    ensures Grown(edits, before, group, a, c)
  {
    forall k | |a| <= k < |c| ensures RightWrite(edits, before, group, c[k]) {
      if k < |b| {
        assert c[k] == b[k];
      }
    }
  }

  /** The list grew by right writes to slots of m only. */
  ghost predicate OwnWrites(edits: seq<Edit>, m: Message, scalars: seq<int>, from: seq<Write>, to: seq<Write>)
    requires |scalars| == |m.descriptor.fields|
    requires m.descriptor.IsStatement() ==> m.descriptor.HasPair()
  {
    && from <= to
    && (forall k | |from| <= k < |to| ::
          && to[k].owner == m && to[k].field < |scalars|
          && to[k].value == Rebased(edits, m, scalars, to[k].field))
  }

  lemma StoreAdded(edits: seq<Edit>, m: Message, scalars: seq<int>, from: seq<Write>, to: seq<Write>, next: seq<Write>,
                   i: nat)
    requires |scalars| == |m.descriptor.fields| && i < |scalars|
    requires m.descriptor.IsStatement() ==> m.descriptor.HasPair()
    requires OwnWrites(edits, m, scalars, from, to)
    requires next == to || next == to + StoreOf(edits, m, scalars, i)
    ensures OwnWrites(edits, m, scalars, from, next) && to <= next
    ensures next == to + StoreOf(edits, m, scalars, i) && Rebased(edits, m, scalars, i) != scalars[i]
            ==> HasWrite(next, m, i)
  {
    if next == to + StoreOf(edits, m, scalars, i) && Rebased(edits, m, scalars, i) != scalars[i] {
      assert next[|next| - 1].owner == m && next[|next| - 1].field == i;
    }
  }

  /** The location fields first..end - 1 of m that change are in the list. */
  ghost predicate LocationsPlanned(edits: seq<Edit>, m: Message, scalars: seq<int>, writes: seq<Write>,
                                   first: nat, end: nat)
    requires end <= |scalars| == |m.descriptor.fields|
    requires m.descriptor.IsStatement() ==> m.descriptor.HasPair()
  {
    forall i | first <= i < end && Locates(m, i) && Rebased(edits, m, scalars, i) != scalars[i] ::
      HasWrite(writes, m, i)
  }

  lemma StartOfPass(s: Setting, edits: seq<Edit>, m: Message, scalars: seq<int>, writes: seq<Write>, first: nat)
    requires first <= |scalars| == |m.descriptor.fields|
    requires m.descriptor.IsStatement() ==> m.descriptor.HasPair()
    ensures OwnWrites(edits, m, scalars, writes, writes)
    ensures LocationsPlanned(edits, m, scalars, writes, first, first)
    ensures |m.present| == |scalars| ==> FieldsOk(s, m, scalars, first, first)
  {
  }

  lemma FieldPlanned(edits: seq<Edit>, m: Message, scalars: seq<int>, start: seq<Write>, from: seq<Write>,
                     to: seq<Write>, first: nat, i: nat)
    requires i < |scalars| == |m.descriptor.fields|
    requires m.descriptor.IsStatement() ==> m.descriptor.HasPair()
    requires OwnWrites(edits, m, scalars, start, from) && LocationsPlanned(edits, m, scalars, from, first, i)
    requires to == from + if Locates(m, i) then StoreOf(edits, m, scalars, i) else []
    ensures OwnWrites(edits, m, scalars, start, to) && LocationsPlanned(edits, m, scalars, to, first, i + 1)
  {
    StoreAdded(edits, m, scalars, start, from, to, i);
    forall j | first <= j < i + 1 && Locates(m, j) && Rebased(edits, m, scalars, j) != scalars[j]
      ensures HasWrite(to, m, j)
    {
      if j < i {
        HasWriteStays(from, to, m, j);
      }
    }
  }

  lemma OwnPlanned(edits: seq<Edit>, before: Snapshot, m: Message, start: seq<Write>, middle: seq<Write>,
                   end: seq<Write>)
    requires m in before && |before[m]| == |m.descriptor.fields| == |m.present| && m.Window().Some?
    requires m.descriptor.IsStatement() ==> m.descriptor.HasPair()
    requires middle == if m.descriptor.IsStatement()
                       then start + StoreOf(edits, m, before[m], m.descriptor.stmtLocation)
                                  + StoreOf(edits, m, before[m], m.descriptor.stmtLen)
                       else start
    requires OwnWrites(edits, m, before[m], middle, end)
    requires forall k | |start| <= k < |end| :: Fits(end[k].value)
    requires LocationsPlanned(edits, m, before[m], end, m.Window().value.0, m.Window().value.1)
    ensures Grown(edits, before, {m}, start, end) && Planned(edits, before, end, m)
  {
    var d, scalars := m.descriptor, before[m];
    if d.IsStatement() {
      var half := start + StoreOf(edits, m, scalars, d.stmtLocation);
      StoreAdded(edits, m, scalars, start, start, half, d.stmtLocation);
      StoreAdded(edits, m, scalars, start, half, middle, d.stmtLen);
    }
    forall k | |start| <= k < |end| ensures RightWrite(edits, before, {m}, end[k]) {
      if k < |middle| {
        assert end[k] == middle[k];
      }
    }
    forall i | 0 <= i < |scalars| && Rebased(edits, m, scalars, i) != scalars[i] ensures HasWrite(end, m, i) {
      if d.IsStatement() && i == d.stmtLocation {
        var half := start + StoreOf(edits, m, scalars, d.stmtLocation);
        HasWriteStays(half, end, m, i);
      } else if d.IsStatement() && i == d.stmtLen {
        HasWriteStays(middle, end, m, i);
      }
    }
  }

  /** A location of zero maps to zero, so skipping it for literal wrappers changes nothing. */
  lemma ZeroStays(s: Setting, m: Message, scalars: seq<int>, i: nat)
    requires Valid(s.edits, s.oldLength, s.newLength)
    requires i < |scalars| == |m.descriptor.fields| && Locates(m, i) && scalars[i] <= 0
    requires m.descriptor.IsStatement() ==> m.descriptor.HasPair()
    ensures StoreOf(s.edits, m, scalars, i) == []
    ensures PointAccepted(s.edits, s.oldLength, 0)
  {
    MapEnds(s.edits, s.oldLength);
  }

  lemma PairRebased(s: Setting, m: Message, scalars: seq<int>)
    requires m.descriptor.IsStatement() && m.descriptor.HasPair() && |scalars| == |m.descriptor.fields|
    ensures var location, length := scalars[m.descriptor.stmtLocation], scalars[m.descriptor.stmtLen];
            && Rebased(s.edits, m, scalars, m.descriptor.stmtLocation)
               == (if location < 0 then location else MapPoint(s.edits, location))
            && Rebased(s.edits, m, scalars, m.descriptor.stmtLen)
               == (if length == 0 then 0 else MapPoint(s.edits, location + length) - MapPoint(s.edits, location))
  {
  }

  // ----- how many stores the walk needs

  ghost function PairCount(edits: seq<Edit>, m: Message, scalars: seq<int>): nat
    requires |scalars| == |m.descriptor.fields|
    requires m.descriptor.IsStatement() ==> m.descriptor.HasPair()
  {
    if !m.descriptor.IsStatement() then 0
    else |StoreOf(edits, m, scalars, m.descriptor.stmtLocation)| + |StoreOf(edits, m, scalars, m.descriptor.stmtLen)|
  }

  ghost function LocationCount(edits: seq<Edit>, m: Message, scalars: seq<int>, first: nat, i: nat): nat
    requires i <= |scalars| == |m.descriptor.fields|
    requires m.descriptor.IsStatement() ==> m.descriptor.HasPair()
  {
    if i <= first then 0
    else
      LocationCount(edits, m, scalars, first, i - 1)
      + if Locates(m, i - 1) then |StoreOf(edits, m, scalars, i - 1)| else 0
  }

  /** The slots of m itself that change. */
  ghost function OwnCount(edits: seq<Edit>, before: Snapshot, m: Message): nat {
    if m in before && |before[m]| == |m.descriptor.fields| && m.Window().Some?
       && (m.descriptor.IsStatement() ==> m.descriptor.HasPair())
    then
      PairCount(edits, m, before[m])
      + LocationCount(edits, m, before[m], m.Window().value.0, m.Window().value.1)
    else 0
  }

  /** The slots that change in m and below it, each as often as the walk comes by. */
  ghost function Total(edits: seq<Edit>, before: Snapshot, m: Message, depth: nat): nat
    decreases if depth <= MAX_DEPTH then MAX_DEPTH + 1 - depth else 0, 4
  {
    if depth > MAX_DEPTH || m.Window().None? || !(|m.descriptor.fields| == |m.members| == |m.present|) then 0
    else
      OwnCount(edits, before, m)
      + ChildrenTotal(edits, before, m, m.Window().value.0, m.Window().value.1, depth)
  }

  ghost function ChildrenTotal(edits: seq<Edit>, before: Snapshot, m: Message, first: nat, i: nat, depth: nat): nat
    requires depth <= MAX_DEPTH && i <= |m.descriptor.fields| == |m.members| == |m.present|
    decreases MAX_DEPTH + 1 - depth, 3, i
  {
    if i <= first then 0
    else ChildrenTotal(edits, before, m, first, i - 1, depth) + FieldTotal(edits, before, m, i - 1, depth)
  }

  ghost function FieldTotal(edits: seq<Edit>, before: Snapshot, m: Message, i: nat, depth: nat): nat
    requires depth <= MAX_DEPTH && i < |m.descriptor.fields| == |m.members| == |m.present|
    decreases MAX_DEPTH + 1 - depth, 2
  {
    if !m.descriptor.fields[i].fieldType.MessageField? || m.ActivityOf(i) != Active then 0
    else
      match m.members[i]
      case Array(items) => ItemsTotal(edits, before, items, |items|, depth)
      case Single(child) => ItemTotal(edits, before, child, depth)
      case _ => 0
  }

  ghost function ItemsTotal(edits: seq<Edit>, before: Snapshot, items: seq<Message?>, k: nat, depth: nat): nat
    requires depth <= MAX_DEPTH && k <= |items|
    decreases MAX_DEPTH + 1 - depth, 1, k
  {
    if k == 0 then 0
    else ItemsTotal(edits, before, items, k - 1, depth) + ItemTotal(edits, before, items[k - 1], depth)
  }

  ghost function ItemTotal(edits: seq<Edit>, before: Snapshot, child: Message?, depth: nat): nat
    requires depth <= MAX_DEPTH
    decreases MAX_DEPTH + 1 - depth, 0
  {
    if child == null then 0 else Total(edits, before, child, depth + 1)
  }

  /** A finished part of the walk took exactly its stores; one that ran out of
      memory needed more than were there, and more than fit into the plan itself. */
  ghost predicate Counted(ok: bool, noMemory: bool, from: nat, to: nat, n: nat) {
    (ok ==> to == from + n) && (noMemory ==> INLINE_WRITES <= to < from + n)
  }

  lemma {:induction false} LocationCountGrows(edits: seq<Edit>, m: Message, scalars: seq<int>, first: nat, i: nat,
                                              end: nat)
    requires i <= end <= |scalars| == |m.descriptor.fields|
    requires m.descriptor.IsStatement() ==> m.descriptor.HasPair()
    ensures LocationCount(edits, m, scalars, first, i) <= LocationCount(edits, m, scalars, first, end)
    decreases end - i
  {
    hide StoreOf, Locates;
    if i < end {
      LocationCountGrows(edits, m, scalars, first, i, end - 1);
    }
  }

  lemma {:induction false} ChildrenTotalGrows(edits: seq<Edit>, before: Snapshot, m: Message, first: nat, i: nat,
                                              end: nat, depth: nat)
    requires depth <= MAX_DEPTH && i <= end <= |m.descriptor.fields| == |m.members| == |m.present|
    ensures ChildrenTotal(edits, before, m, first, i, depth) <= ChildrenTotal(edits, before, m, first, end, depth)
    decreases end - i
  {
    hide FieldTotal;
    if i < end {
      ChildrenTotalGrows(edits, before, m, first, i, end - 1, depth);
    }
  }

  lemma {:induction false} ItemsTotalGrows(edits: seq<Edit>, before: Snapshot, items: seq<Message?>, k: nat, n: nat,
                                           depth: nat)
    requires depth <= MAX_DEPTH && k <= n <= |items|
    ensures ItemsTotal(edits, before, items, k, depth) <= ItemsTotal(edits, before, items, n, depth)
    decreases n - k
  {
    hide ItemTotal;
    if k < n {
      ItemsTotalGrows(edits, before, items, k, n - 1, depth);
    }
  }

  lemma ItemsTotalStep(edits: seq<Edit>, before: Snapshot, items: seq<Message?>, k: nat, depth: nat)
    requires depth <= MAX_DEPTH && k < |items|
    ensures ItemsTotal(edits, before, items, k + 1, depth)
         == ItemsTotal(edits, before, items, k, depth) + ItemTotal(edits, before, items[k], depth)
    ensures ItemsTotal(edits, before, items, k + 1, depth) <= ItemsTotal(edits, before, items, |items|, depth)
  {
    ItemsTotalGrows(edits, before, items, k + 1, |items|, depth);
  }

  lemma ChildrenTotalStep(edits: seq<Edit>, before: Snapshot, m: Message, first: nat, i: nat, end: nat, depth: nat)
    requires depth <= MAX_DEPTH && first <= i < end <= |m.descriptor.fields| == |m.members| == |m.present|
    ensures ChildrenTotal(edits, before, m, first, i + 1, depth)
         == ChildrenTotal(edits, before, m, first, i, depth) + FieldTotal(edits, before, m, i, depth)
    ensures ChildrenTotal(edits, before, m, first, i + 1, depth)
         <= ChildrenTotal(edits, before, m, first, end, depth)
  {
    ChildrenTotalGrows(edits, before, m, first, i + 1, end, depth);
  }

  lemma NoTotals(edits: seq<Edit>, before: Snapshot, items: seq<Message?>, depth: nat)
    requires depth <= MAX_DEPTH
    ensures ItemsTotal(edits, before, items, 0, depth) == 0
  {
  }

  lemma NoChildrenTotal(edits: seq<Edit>, before: Snapshot, m: Message, first: nat, depth: nat)
    requires depth <= MAX_DEPTH && first <= |m.descriptor.fields| == |m.members| == |m.present|
    ensures ChildrenTotal(edits, before, m, first, first, depth) == 0
  {
  }

  // ----- the walk

  /** The snapshot describes the messages as they are now. */
  ghost predicate Describes(before: Snapshot)
    reads before.Keys
  {
    forall x | x in before :: x.Shaped() && x.scalars == before[x] && x.Kids() <= before.Keys
  }

  class Rebase {
    const s: Setting
    const cursor: Cursor
    const plan: Plan
    var noMemory: bool

    constructor (s: Setting, plan: Plan)
      requires Valid(s.edits, s.oldLength, s.newLength) && plan.Valid() && plan.items != null
      ensures Ready() && !noMemory && this.s == s && this.plan == plan && fresh(cursor)
    {
      this.s, this.plan, noMemory := s, plan, false;
      cursor := new Cursor(s.edits, s.oldLength, s.newLength);
    }

    ghost predicate Ready()
      reads this, cursor, plan, plan.items
    {
      && cursor.edits == s.edits && cursor.oldLength == s.oldLength && cursor.newLength == s.newLength
      && Valid(s.edits, s.oldLength, s.newLength)
      && cursor.Coherent()
      && plan.Valid() && plan.items != null
    }

    /** Maps one location slot and records the store. */
    method Location(m: Message, i: nat, ghost scalars: seq<int>) returns (ok: bool)
      requires Ready() && !noMemory && m.scalars == scalars && |scalars| == |m.descriptor.fields|
      requires i < |scalars| && Locates(m, i) && scalars[i] >= 0
      requires m.descriptor.IsStatement() ==> m.descriptor.HasPair()
      modifies this`noMemory, cursor, plan, plan.items
      ensures Ready() && (plan.items == old(plan.items) || fresh(plan.items))
      ensures Counted(ok, noMemory, |old(plan.Contents())|, |plan.Contents()|,
                      |StoreOf(s.edits, m, scalars, i)|)
      ensures ok ==> !noMemory && PointAccepted(s.edits, s.oldLength, scalars[i])
      ensures !ok && !noMemory ==> !PointAccepted(s.edits, s.oldLength, scalars[i])
      ensures ok ==> plan.Contents() == old(plan.Contents()) + StoreOf(s.edits, m, scalars, i)
    {
      var mapped, _ := cursor.Point(m.scalars[i]);
      if mapped.None? {
        return false;
      }
      ok := Keep(m, i, mapped.value, scalars);
    }

    /** Records the store of a mapped value; a store that cannot be kept is out of memory. */
    method Keep(m: Message, i: nat, value: int32, ghost scalars: seq<int>) returns (ok: bool)
      requires Ready() && m.scalars == scalars && i < |scalars| == |m.descriptor.fields|
      requires m.descriptor.IsStatement() ==> m.descriptor.HasPair()
      requires value as int == Rebased(s.edits, m, scalars, i)
      modifies this`noMemory, plan, plan.items
      ensures Ready() && (plan.items == old(plan.items) || fresh(plan.items)) && noMemory == !ok
      ensures Counted(ok, noMemory, |old(plan.Contents())|, |plan.Contents()|,
                      |StoreOf(s.edits, m, scalars, i)|)
      ensures ok ==> plan.Contents() == old(plan.Contents()) + StoreOf(s.edits, m, scalars, i)
    {
      hide Rebased, Valid;
      ok := plan.Record(m, i, value);
      noMemory := !ok;
    }

    /** Moves the statement pair of m. */
    method Statement(m: Message, ghost scalars: seq<int>) returns (ok: bool)
      requires Ready() && !noMemory && m.scalars == scalars && |scalars| == |m.descriptor.fields|
      requires m.descriptor.IsStatement() && m.descriptor.HasPair()
      modifies this`noMemory, cursor, plan, plan.items
      ensures Ready() && (plan.items == old(plan.items) || fresh(plan.items))
      ensures Counted(ok, noMemory, |old(plan.Contents())|, |plan.Contents()|,
                      PairCount(s.edits, m, scalars))
      ensures ok ==> !noMemory && PairOk(s, m, scalars)
      ensures !ok && !noMemory ==> !PairOk(s, m, scalars)
      ensures ok ==> plan.Contents() == old(plan.Contents()) + StoreOf(s.edits, m, scalars, m.descriptor.stmtLocation)
                                                              + StoreOf(s.edits, m, scalars, m.descriptor.stmtLen)
    {
      hide Rebased, MapPoint, PairAccepted, Valid, StoreOf;
      var mapped := cursor.Pair(m.scalars[m.descriptor.stmtLocation], m.scalars[m.descriptor.stmtLen]);
      if mapped.None? {
        return false;
      }
      PairRebased(s, m, scalars);
      ok := Keep(m, m.descriptor.stmtLocation, mapped.value.0, scalars);
      if ok {
        ok := Keep(m, m.descriptor.stmtLen, mapped.value.1, scalars);
      }
    }

    /** The first pass over one field: its scalar coordinate, if it is one. */
    method Field(m: Message, i: nat, literalWrapper: bool, ghost scalars: seq<int>) returns (ok: bool)
      requires Ready() && !noMemory && m.scalars == scalars && |scalars| == |m.descriptor.fields| == |m.present|
      requires m.Visits(i) && i < |scalars|
      requires m.descriptor.IsStatement() ==> m.descriptor.HasPair()
      modifies this`noMemory, cursor, plan, plan.items
      ensures Ready() && (plan.items == old(plan.items) || fresh(plan.items))
      ensures Counted(ok, noMemory, |old(plan.Contents())|, |plan.Contents()|,
                      if Locates(m, i) then |StoreOf(s.edits, m, scalars, i)| else 0)
      ensures ok ==> !noMemory && FieldOk(s, m, scalars, i)
      ensures !ok && !noMemory ==> !FieldOk(s, m, scalars, i)
      ensures ok ==> plan.Contents() == old(plan.Contents())
                                        + if Locates(m, i) then StoreOf(s.edits, m, scalars, i) else []
    {
      var field := m.descriptor.fields[i];
      var activity := m.ActivityOf(i);
      if activity == Corrupt || field.name.None? {
        return false;
      }
      if activity == Inactive {
        return true;
      }
      var name := field.name.value;
      if NamesPair(name) {
        return m.descriptor.IsStatement() && PlainInt32(field);
      }
      if !NamesLocation(name) {
        return !UnhandledSourceField(field, name);
      }
      if TablespacePath(m.descriptor.kind, field, name) {
        return true;
      }
      if !PlainInt32(field) {
        return false;
      }
      if m.scalars[i] < 0 || (literalWrapper && m.scalars[i] == 0) {
        ZeroStays(s, m, scalars, i);
        return true;
      }
      ok := Location(m, i, scalars);
    }

    /** The first pass over all visited fields of a message. */
    method Fields(m: Message, first: nat, end: nat, literalWrapper: bool, ghost scalars: seq<int>) returns (ok: bool)
      requires Ready() && !noMemory && m.scalars == scalars && |scalars| == |m.descriptor.fields| == |m.present|
      requires m.Window() == Some((first, end))
      requires m.descriptor.IsStatement() ==> m.descriptor.HasPair()
      modifies this`noMemory, cursor, plan, plan.items
      ensures Ready() && (plan.items == old(plan.items) || fresh(plan.items))
      ensures Counted(ok, noMemory, |old(plan.Contents())|, |plan.Contents()|,
                      LocationCount(s.edits, m, scalars, first, end))
      ensures ok ==> !noMemory && FieldsOk(s, m, scalars, first, end)
      ensures !ok && !noMemory ==> !FieldsOk(s, m, scalars, first, end)
      ensures ok ==> OwnWrites(s.edits, m, scalars, old(plan.Contents()), plan.Contents())
      ensures ok ==> LocationsPlanned(s.edits, m, scalars, plan.Contents(), first, end)
    {
      hide Valid, OwnWrites, LocationsPlanned, StoreOf, FieldOk, FieldsOk, Locates, Cursor.Coherent, Plan.Valid,
           Plan.Contents;
      ghost var start := plan.Contents();
      StartOfPass(s, s.edits, m, scalars, start, first);
      for i := first to end
        invariant Ready() && !noMemory && (plan.items == old(plan.items) || fresh(plan.items))
        invariant FieldsOk(s, m, scalars, first, i)
        invariant |plan.Contents()| == |start| + LocationCount(s.edits, m, scalars, first, i)
        invariant OwnWrites(s.edits, m, scalars, start, plan.Contents())
        invariant LocationsPlanned(s.edits, m, scalars, plan.Contents(), first, i)
      {
        ghost var middle := plan.Contents();
        FieldsOkStep(s, m, scalars, first, i, end);
        LocationCountGrows(s.edits, m, scalars, first, i + 1, end);
        ok := Field(m, i, literalWrapper, scalars);
        if !ok {
          return false;
        }
        FieldPlanned(s.edits, m, scalars, start, middle, plan.Contents(), first, i);
      }
      return true;
    }

    /** Everything the walk does with m itself: its statement pair and its fields. */
    method Own(m: Message, first: nat, end: nat, literalWrapper: bool, ghost before: Snapshot) returns (ok: bool)
      requires Ready() && !noMemory && m in before && m.Shaped() && m.scalars == before[m]
      requires m.Window() == Some((first, end))
      modifies this`noMemory, cursor, plan, plan.items
      ensures Ready() && (plan.items == old(plan.items) || fresh(plan.items))
      ensures Counted(ok, noMemory, |old(plan.Contents())|, |plan.Contents()|,
                      OwnCount(s.edits, before, m))
      ensures ok ==> !noMemory && OwnOk(s, before, m)
      ensures !ok && !noMemory ==> !OwnOk(s, before, m)
      ensures ok ==> Grown(s.edits, before, {m}, old(plan.Contents()), plan.Contents())
                     && Planned(s.edits, before, plan.Contents(), m)
    {
      hide Valid, LocationCount, OwnWrites, LocationsPlanned, StoreOf, FieldsOk, Grown, Planned, Cursor.Coherent;
      ghost var start, scalars := plan.Contents(), before[m];
      if m.descriptor.IsStatement() {
        ok := Statement(m, scalars);
        if !ok {
          return false;
        }
      }
      ghost var middle := plan.Contents();
      ok := Fields(m, first, end, literalWrapper, scalars);
      if ok {
        OwnPlanned(s.edits, before, m, start, middle, plan.Contents());
      }
    }

    /** Walks one child slot. */
    method Item(child: Message?, target: Kind, literalWrapper: bool, underTypeName: bool, depth: nat,
                ghost before: Snapshot, ghost done: Part, ghost start: seq<Write>)
      returns (ok: bool, ghost next: Part)
      requires Ready() && !noMemory && Describes(before) && depth <= MAX_DEPTH
      requires child != null ==> child in before
      requires Done(s, before, depth + 1, underTypeName, done, start, plan.Contents())
      modifies this`noMemory, cursor, plan, plan.items
      ensures Ready() && (plan.items == old(plan.items) || fresh(plan.items))
      ensures Counted(ok, noMemory, |old(plan.Contents())|, |plan.Contents()|,
                      ItemTotal(s.edits, before, child, depth))
      ensures ok ==> !noMemory && ItemOk(s, before, child, target, depth + 1, underTypeName)
      ensures !ok && !noMemory ==> !ItemOk(s, before, child, target, depth + 1, underTypeName)
      ensures ok ==> next.kids == done.kids + {child}
      ensures ok ==> Done(s, before, depth + 1, underTypeName, next, start, plan.Contents())
      decreases MAX_DEPTH - depth, 1
    {
      hide Valid, Total, Eligible, Certified, Rooted, Cursor.Coherent, Plan.Valid, Plan.Contents;
      next := done;
      if child == null || child.descriptor.kind != target {
        return false, next;
      }
      ghost var middle := plan.Contents();
      ghost var group;
      ok, group := Walk(child, true, depth + 1, literalWrapper, underTypeName, before);
      if ok {
        DoneJoin(s, before, depth + 1, underTypeName, done, child, group, start, middle, plan.Contents());
        next := Part(done.kids + {child}, done.group + group);
      }
    }

    /** Walks the children of a repeated field, in order. */
    method Items(items: seq<Message?>, target: Kind, literalWrapper: bool, underTypeName: bool, depth: nat,
                 ghost before: Snapshot, ghost done: Part, ghost start: seq<Write>)
      returns (ok: bool, ghost next: Part)
      requires Ready() && !noMemory && Describes(before) && depth <= MAX_DEPTH
      requires NonNull(Array(items)) <= before.Keys
      requires Done(s, before, depth + 1, underTypeName, done, start, plan.Contents())
      modifies this`noMemory, cursor, plan, plan.items
      ensures Ready() && (plan.items == old(plan.items) || fresh(plan.items))
      ensures Counted(ok, noMemory, |old(plan.Contents())|, |plan.Contents()|,
                      ItemsTotal(s.edits, before, items, |items|, depth))
      ensures ok ==> !noMemory && ItemsOk(s, before, items, |items|, target, depth + 1, underTypeName)
      ensures !ok && !noMemory ==> !ItemsOk(s, before, items, |items|, target, depth + 1, underTypeName)
      ensures ok ==> next.kids == done.kids + NonNull(Array(items))
      ensures ok ==> Done(s, before, depth + 1, underTypeName, next, start, plan.Contents())
      decreases MAX_DEPTH - depth, 2
    {
      hide Valid, ItemsTotal, ItemTotal, Eligible, Done, ItemOk, ItemsOk, NonNull, Cursor.Coherent, Plan.Valid,
           Plan.Contents;
      next := done;
      NonNullEnds(items);
      NoTotals(s.edits, before, items, depth);
      NoItems(s, before, items, target, depth + 1, underTypeName);
      ghost var none: set<Message> := {};
      assert done.kids == done.kids + none;
      for index := 0 to |items|
        invariant Ready() && !noMemory && (plan.items == old(plan.items) || fresh(plan.items))
        invariant ItemsOk(s, before, items, index, target, depth + 1, underTypeName)
        invariant |plan.Contents()| == |old(plan.Contents())| + ItemsTotal(s.edits, before, items, index, depth)
        invariant next.kids == done.kids + NonNull(Array(items[..index]))
        invariant Done(s, before, depth + 1, underTypeName, next, start, plan.Contents())
      {
        ItemsOkStep(s, before, items, index, target, depth + 1, underTypeName);
        NonNullStep(items, index);
        ItemsTotalStep(s.edits, before, items, index, depth);
        ok, next := Item(items[index], target, literalWrapper, underTypeName, depth, before, next, start);
        if !ok {
          return false, next;
        }
      }
      return true, next;
    }

    /** The second pass over one field: its children, if it holds any. */
    method Members(m: Message, i: nat, depth: nat, underTypeName: bool,
                   ghost before: Snapshot, ghost done: Part, ghost start: seq<Write>)
      returns (ok: bool, ghost next: Part)
      requires Ready() && !noMemory && Describes(before) && depth <= MAX_DEPTH
      requires m in before && i < |m.members| && m.Visits(i)
      requires Done(s, before, depth + 1, underTypeName, done, start, plan.Contents())
      modifies this`noMemory, cursor, plan, plan.items
      ensures Ready() && (plan.items == old(plan.items) || fresh(plan.items))
      ensures Counted(ok, noMemory, |old(plan.Contents())|, |plan.Contents()|,
                      FieldTotal(s.edits, before, m, i, depth))
      ensures ok ==> !noMemory && |m.descriptor.fields| == |m.members| == |m.present| && MembersOk(m, i)
      ensures ok ==> next.kids == done.kids + m.KidsAt(i)
      ensures ok ==> Done(s, before, depth + 1, underTypeName, next, start, plan.Contents())
      ensures !ok && !noMemory ==> !ChildrenOk(s, before, m, i, depth + 1, underTypeName)
      decreases MAX_DEPTH - depth, 3
    {
      hide Valid, ItemsTotal, Total, Eligible, Done, Cursor.Coherent, Plan.Valid, Plan.Contents;
      next := done;
      assert m.Shaped();
      KidsOfField(m, i, before);
      var field := m.descriptor.fields[i];
      if !field.fieldType.MessageField? {
        return true, next;
      }
      var activity := m.ActivityOf(i);
      if activity != Active {
        return activity == Inactive, next;
      }
      var target := field.fieldType.target;
      var childWrapper := m.descriptor.kind == AConstKind && target in {StringKind, FloatKind, BitStringKind};
      match m.members[i] {
        case MissingArray =>
          return false, next;
        case Array(items) =>
          ok, next := Items(items, target, childWrapper, underTypeName, depth, before, done, start);
        case Single(child) =>
          if child == null {
            return field.oneof.None? && field.cardinality != Required, next;
          }
          ok, next := Item(child, target, childWrapper, underTypeName, depth, before, done, start);
      }
    }

    /** The walk of one message and of everything below it. */
    method Walk(m: Message?, owned: bool, depth: nat, literalWrapper: bool, underTypeName: bool,
                ghost before: Snapshot)
      returns (ok: bool, ghost group: set<Message>)
      requires Ready() && !noMemory && Describes(before) && depth <= MAX_DEPTH + 1
      requires m != null ==> m in before
      modifies this`noMemory, cursor, plan, plan.items
      ensures Ready() && (plan.items == old(plan.items) || fresh(plan.items))
      ensures Counted(ok, noMemory, |old(plan.Contents())|, |plan.Contents()|,
                      if m == null then 0 else Total(s.edits, before, m, depth))
      ensures ok ==> !noMemory && m != null && Eligible(s, before, m, depth, owned, underTypeName)
      ensures !ok && !noMemory && m != null ==> !Eligible(s, before, m, depth, owned, underTypeName)
      ensures ok ==> Certified(s.edits, before, group, old(plan.Contents()), plan.Contents()) && Rooted({m}, group)
      decreases MAX_DEPTH + 1 - depth, 0
    {
      hide Valid, OwnCount, ChildrenTotal, OwnOk, AllMembersOk, SomeKidFails, Certified, Rooted, Grown, Planned, Done,
           Cursor.Coherent, Plan.Valid, Plan.Contents;
      ghost var start := plan.Contents();
      if m == null || depth > MAX_DEPTH || !m.genuine {
        return false, {};
      }
      var window := m.Window();
      if window.None? {
        return false, {};
      }
      var (first, end) := window.value;
      var under := underTypeName || m.descriptor.kind == TypeNameKind;
      if m.descriptor.kind == AConstKind && (!owned || !s.accept(m, under)) {
        return false, {};
      }
      assert m.Shaped();
      EligibleUnfolds(s, before, m, depth, owned, underTypeName);
      ok := Own(m, first, end, literalWrapper, before);
      if !ok {
        return false, {};
      }
      ghost var middle := plan.Contents();
      ghost var part;
      ok, part := Children(m, first, end, depth, under, before);
      if ok {
        WholeCertified(s, before, m, depth + 1, under, part, start, middle, plan.Contents());
        group := {m} + part.group;
      } else {
        group := {};
      }
    }

    /** The second pass over all visited fields of a message. */
    method Children(m: Message, first: nat, end: nat, depth: nat, underTypeName: bool, ghost before: Snapshot)
      returns (ok: bool, ghost next: Part)
      requires Ready() && !noMemory && Describes(before) && depth <= MAX_DEPTH
      requires m in before && m.Window() == Some((first, end))
      modifies this`noMemory, cursor, plan, plan.items
      ensures Ready() && (plan.items == old(plan.items) || fresh(plan.items))
      ensures Counted(ok, noMemory, |old(plan.Contents())|, |plan.Contents()|,
                      ChildrenTotal(s.edits, before, m, first, end, depth))
      ensures ok ==> !noMemory && AllMembersOk(m) && next.kids == m.Kids()
      ensures ok ==> Done(s, before, depth + 1, underTypeName, next, old(plan.Contents()), plan.Contents())
      ensures !ok && !noMemory ==> !AllMembersOk(m) || SomeKidFails(s, before, m, depth + 1, underTypeName)
      decreases MAX_DEPTH - depth, 4
    {
      hide Valid, ChildrenTotal, FieldTotal, Eligible, Done, MembersOk, MembersPass, ChildrenOk, SomeKidFails,
           AllMembersOk, Cursor.Coherent, Plan.Valid, Plan.Contents;
      ghost var start := plan.Contents();
      assert m.Shaped();
      StartOfChildren(s, before, m, first, depth + 1, underTypeName, start);
      NoChildrenTotal(s.edits, before, m, first, depth);
      next := Part({}, {});
      for i := first to end
        invariant Ready() && !noMemory && (plan.items == old(plan.items) || fresh(plan.items))
        invariant MembersPass(m, first, i)
        invariant |plan.Contents()| == |start| + ChildrenTotal(s.edits, before, m, first, i, depth)
        invariant next.kids == m.KidsBetween(first, i)
        invariant Done(s, before, depth + 1, underTypeName, next, start, plan.Contents())
      {
        ChildrenTotalStep(s.edits, before, m, first, i, end, depth);
        ok, next := Members(m, i, depth, underTypeName, before, next, start);
        if !ok {
          FieldFails(s, before, m, first, i, end, depth + 1, underTypeName);
          return false, next;
        }
        MembersPassStep(m, first, i);
      }
      AllPass(m, first, end);
      return true, next;
    }
  }
}

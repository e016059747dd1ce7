/** When renames succeed, and the names and the log a run of them ends with. */
module RenameOutcomes {
  import opened Wrappers
  import opened ChangeLog
  import opened Renames
  import opened RenameRuns

  // ----- one call

  ghost predicate Unlogged(log: Log, slot: nat) {
    forall i | 0 <= i < |log| :: log[i].slot != slot
  }

  /** The first record of the slot asks for just this spelling. */
  ghost predicate AsksFor(log: Log, slot: nat, spelling: Option<string>) {
    exists i | 0 <= i < |log| ::
      log[i].slot == slot && log[i].spelling == spelling && forall j | 0 <= j < i :: log[j].slot != slot
  }

  /** A rename succeeds exactly if its arguments are usable and either it changes
      nothing, or nobody refuses it and the memory it needs is there; whatever is in
      the log, the slot then has the new name and all others keep theirs.  Of a call
      that fails nothing is left, unless it was the commit. */
  lemma NameSucceeds(s: State, slot: Option<nat>, value: string, spelling: Option<string>, limits: NameLimits)
    requires slot.Some? ==> slot.value in s.names
    ensures var r := AfterSetName(s, slot, value, spelling, limits);
            && (r.1 == Ok <==>
                  && slot.Some? && value != "" && spelling != Some("")
                  && (s.names[slot.value] != value || spelling.Some? ==>
                        && !limits.refused
                        && (spelling.Some? ==> limits.spellingMemory)
                        && (Unlogged(s.log, slot.value) ==> limits.logMemory)
                        && ((s.names[slot.value] == value && AsksFor(s.log, slot.value, spelling))
                            || (&& limits.staging == Ok && limits.commit == Ok
                                && (s.names[slot.value] != value ==> limits.valueMemory)))))
            && (r.1 == Ok ==> r.0.names == s.names[slot.value := value] && r.0.failed == s.failed)
            && (r.1 != Ok ==> r.0 == s || (r.0.failed && r.1 == limits.commit))
            && (r.1 == if slot == None || value == "" || spelling == Some("") then InvalidArgument
                       else if s.names[slot.value] == value && spelling == None then Ok
                       else if limits.refused then Unsupported
                       else if (spelling.Some? && !limits.spellingMemory)
                               || (Unlogged(s.log, slot.value) && !limits.logMemory) then NoMemory
                       else if s.names[slot.value] == value && AsksFor(s.log, slot.value, spelling) then Ok
                       else if limits.staging != Ok then limits.staging
                       else if s.names[slot.value] != value && !limits.valueMemory then NoMemory
                       else limits.commit)
  {
    hide Settled;
    if slot.Some? {
      var i := Find(s.log, slot.value);
      assert i < |s.log| ==> !Unlogged(s.log, slot.value);
      forall j | && 0 <= j < |s.log| && s.log[j].slot == slot.value
                 && (forall k | 0 <= k < j :: s.log[k].slot != slot.value)
        ensures j == i
      {
      }
    }
  }

  /** A commit that fails leaves the new name, in a record that was there too, but no new
      record and no new spelling, and poisons the handle. */
  lemma FailedCommit(s: State, slot: nat, value: string, spelling: Option<string>, limits: NameLimits)
    requires slot in s.names && value != "" && spelling != Some("")
    requires !limits.refused && limits.spellingMemory && limits.logMemory && limits.valueMemory && limits.staging == Ok
    requires s.names[slot] != value || (spelling.Some? && !AsksFor(s.log, slot, spelling))
    requires limits.commit != Ok
    ensures var (after, status) := AfterSetName(s, Some(slot), value, spelling, limits);
            && status == limits.commit && after.failed && after.names == s.names[slot := value]
            && (Unlogged(s.log, slot) ==> after.log == s.log)
            && forall i | && 0 <= i < |s.log| && s.log[i].slot == slot
                          && (forall j | 0 <= j < i :: s.log[j].slot != slot) ::
                 after.log == s.log[i := s.log[i].(value := value)]
  {
    NameSucceeds(s, Some(slot), value, spelling, limits);
    var i := Find(s.log, slot);
    assert i < |s.log| ==> s.log[i].slot == slot;
  }

  /** The slot has a record, the first one of it in the group. */
  ghost predicate InGroup(log: Log, slot: nat, group: nat) {
    exists i | 0 <= i < |log| ::
      log[i].slot == slot && log[i].group == group && forall j | 0 <= j < i :: log[j].slot != slot
  }

  /** No two of the three slots are in different nonzero groups. */
  ghost predicate OneOrNone(log: Log, t: Triple) {
    forall x, y, g, h | x in t && y in t && InGroup(log, x, g) && InGroup(log, y, h) :: g == 0 || h == 0 || g == h
  }

  lemma InGroupMeans(log: Log, slot: nat, g: nat)
    ensures InGroup(log, slot, g) <==> Find(log, slot) < |log| && GroupAt(log, slot) == g
    ensures Unlogged(log, slot) <==> Find(log, slot) == |log|
  {
    var i := Find(log, slot);
    if InGroup(log, slot, g) {
      var k :| && 0 <= k < |log| && log[k].slot == slot && log[k].group == g
               && forall j | 0 <= j < k :: log[j].slot != slot;
      assert k == i;
    }
  }

  ghost predicate Agree(g: nat, h: nat) {
    g == 0 || h == 0 || g == h
  }

  lemma OneOrNoneMeans(log: Log, t: Triple)
    ensures OneOrNone(log, t)
       <==> && Agree(GroupAt(log, t[0]), GroupAt(log, t[1])) && Agree(GroupAt(log, t[0]), GroupAt(log, t[2]))
            && Agree(GroupAt(log, t[1]), GroupAt(log, t[2]))
  {
    hide InGroup, GroupAt;
    forall x, g | InGroup(log, x, g) ensures GroupAt(log, x) == g
    {
      InGroupMeans(log, x, g);
    }
    forall x | GroupAt(log, x) != 0 ensures InGroup(log, x, GroupAt(log, x))
    {
      GroupedIsIn(log, x);
    }
    assert forall x | x in t :: x == t[0] || x == t[1] || x == t[2];
    assert t[0] in t && t[1] in t && t[2] in t;
  }

  lemma GroupedIsIn(log: Log, x: nat)
    requires GroupAt(log, x) != 0
    ensures InGroup(log, x, GroupAt(log, x))
  {
    InGroupMeans(log, x, GroupAt(log, x));
  }

  lemma CommonMeans(log: Log, t: Triple)
    ensures CommonGroup(log, t, 3).Some? <==> OneOrNone(log, t)
    ensures CommonGroup(log, t, 3) == Some(0) <==> forall k | 0 <= k < 3 :: GroupAt(log, t[k]) == 0
  {
    OneOrNoneMeans(log, t);
    hide OneOrNone, GroupAt;
    assert CommonGroup(log, t, 1) == Some(GroupAt(log, t[0]));
    assert CommonGroup(log, t, 0) == Some(0);
  }

  /** Preparing the records of a relation gives no record a group. */
  lemma PreparedGroups(s: State, t: Triple)
    requires SlotsNamed(s.names, t) && Distinct(s.log)
    ensures var log := PreparedPath(s.log, s.names, t, 3);
            && Distinct(log)
            && (forall x: nat :: GroupAt(log, x) == GroupAt(s.log, x))
            && (MaxGroup(log, |log|) >= SIZE_MAX <==> exists i | 0 <= i < |s.log| :: s.log[i].group >= SIZE_MAX)
  {
    hide PreparedPath;
    var log := PreparedPath(s.log, s.names, t, 3);
    PathEntries(s.log, s.names, t, 0);
    forall x: nat
      ensures GroupAt(log, x) == GroupAt(s.log, x)
    {
      PathEntries(s.log, s.names, t, x);
    }
    TopGroup(log, SIZE_MAX);
    GroupsSeen(log, SIZE_MAX);
    GroupsSeen(s.log, SIZE_MAX);
  }

  lemma {:induction false} TopGroup(log: Log, bound: nat)
    ensures MaxGroup(log, |log|) >= bound <==> bound == 0 || exists i | 0 <= i < |log| :: log[i].group >= bound
  {
    TopGroupUpTo(log, |log|, bound);
  }

  lemma {:induction false} TopGroupUpTo(log: Log, n: nat, bound: nat)
    requires n <= |log|
    ensures MaxGroup(log, n) >= bound <==> bound == 0 || exists i | 0 <= i < n :: log[i].group >= bound
  {
    if n > 0 {
      TopGroupUpTo(log, n - 1, bound);
    }
  }

  lemma GroupsSeen(log: Log, bound: nat)
    requires Distinct(log) && bound > 0
    ensures (exists i | 0 <= i < |log| :: log[i].group >= bound) <==> exists x: nat :: GroupAt(log, x) >= bound
  {
    forall i | 0 <= i < |log| ensures GroupAt(log, log[i].slot) == log[i].group {
      EntryAt(log, i);
    }
  }

  /** No other group number than those in use is needed, or one is left. */
  ghost predicate GroupLeft(log: Log, t: Triple) {
    (forall k | 0 <= k < 3 :: GroupAt(log, t[k]) == 0) ==> forall i | 0 <= i < |log| :: log[i].group < SIZE_MAX
  }

  lemma PlaceSucceeds(s: State, t: Triple, p: Path, l: PathLimits)
    requires IsPath(p) && AreLimits(l) && SlotsNamed(s.names, t) && Distinct(s.log)
    ensures var r := AfterPlace(s, PreparedPath(s.log, s.names, t, 3), t, p, l);
            && (r.1 == Ok <==> OneOrNone(s.log, t) && GroupLeft(s.log, t) && l.valueMemory)
            && r.1 == (if !OneOrNone(s.log, t) then InternalError
                       else if !GroupLeft(s.log, t) then ResourceLimit
                       else if !l.valueMemory then NoMemory else Ok)
            && (r.1 == Ok ==> r.0.names == NamesAfter(s.names, t, p, 3) && r.0.failed == s.failed)
            && (r.1 != Ok ==> r.0 == s)
  {
    var log := PreparedPath(s.log, s.names, t, 3);
    PreparedGroups(s, t);
    CommonMeans(log, t);
    OneOrNoneMeans(log, t);
    OneOrNoneMeans(s.log, t);
    hide PreparedPath, GroupAt, Installed, CommonGroup, MaxGroup, OneOrNone, NamesAfter, Entry;
  }

  /** A relation takes a new path exactly if nothing changes, or its spellings are
      found, memory lasts, its records are in one group at most, and a group number
      is left if they have none; its three slots then have the new values and all
      others keep theirs.  Of a call that fails nothing is left. */
  lemma PathSucceeds(s: State, t: Triple, p: Path, l: PathLimits)
    requires IsPath(p) && AreLimits(l) && SlotsNamed(s.names, t) && Distinct(s.log)
    ensures var r := AfterReplace(s, t, p, l);
            && (r.1 == Ok <==>
                  || (forall k | 0 <= k < 3 :: s.names[t[k]] == p.values[k] && p.spellings[k] == None)
                  || (&& l.planning == Ok && l.valueMemory
                      && (forall k | 0 <= k < 3 :: Unlogged(s.log, t[k]) ==> l.logMemory[k])
                      && OneOrNone(s.log, t)
                      && GroupLeft(s.log, t)))
            && (r.1 == Ok ==>
                  r.0.names == s.names[t[0] := p.values[0]][t[1] := p.values[1]][t[2] := p.values[2]]
                  && r.0.failed == s.failed)
            && (r.1 != Ok ==>
                  && r.0 == s
                  && r.1 == (if l.planning != Ok then l.planning
                             else if exists k | 0 <= k < 3 :: Unlogged(s.log, t[k]) && !l.logMemory[k] then NoMemory
                             else if !OneOrNone(s.log, t) then InternalError
                             else if !GroupLeft(s.log, t) then ResourceLimit
                             else NoMemory))
  {
    PlaceSucceeds(s, t, p, l);
    forall k | 0 <= k < 3 ensures Entry(s.log, t[k]).None? <==> Unlogged(s.log, t[k]) {
      InGroupMeans(s.log, t[k], 0);
    }
    assert LogMemoryLasts(s.log, t, l, 3) <==> forall k | 0 <= k < 3 :: Unlogged(s.log, t[k]) ==> l.logMemory[k];
    ThreeNames(s.names, t, p);
    NothingChanges(s.names, t, p);
    hide PreparedPath, AfterPlace, OneOrNone, GroupLeft, Unlogged, NamesAfter, Entry, Changes, LogMemoryLasts;
  }

  lemma NothingChanges(names: map<nat, string>, t: Triple, p: Path)
    requires IsPath(p) && SlotsNamed(names, t)
    ensures (forall k | 0 <= k < 3 :: names[t[k]] == p.values[k] && p.spellings[k] == None)
       <==> !Changes(names, t, p, 0) && !Changes(names, t, p, 1) && !Changes(names, t, p, 2)
    ensures !Changes(names, t, p, 0) && !Changes(names, t, p, 1) && !Changes(names, t, p, 2)
        ==> names == names[t[0] := p.values[0]][t[1] := p.values[1]][t[2] := p.values[2]]
  {
    assert forall k | 0 <= k < 3 :: Changes(names, t, p, k) <==> names[t[k]] != p.values[k] || p.spellings[k].Some?;
  }

  lemma ThreeNames(names: map<nat, string>, t: Triple, p: Path)
    requires IsPath(p) && SlotsNamed(names, t)
    ensures NamesAfter(names, t, p, 3) == names[t[0] := p.values[0]][t[1] := p.values[1]][t[2] := p.values[2]]
  {
    assert NamesAfter(names, t, p, 1) == names[t[0] := p.values[0]];
    assert NamesAfter(names, t, p, 2) == NamesAfter(names, t, p, 1)[t[1] := p.values[1]];
  }

  // ----- runs of calls that nothing stops

  /** The arguments are usable, nobody refuses, and memory lasts. */
  predicate Smooth(c: Call) {
    match c
    case NameCall(slot, value, spelling, l) =>
      && slot.Some? && value != "" && spelling != Some("")
      && !l.refused && l.spellingMemory && l.logMemory && l.staging == Ok && l.valueMemory && l.commit == Ok
    case RelationCall(_, _, l) =>
      l.planning == Ok && l.logMemory == [true, true, true] && l.valueMemory
  }

  /** The name the call asks the slot to have. */
  function Asked(c: Call, x: nat): Option<string> {
    match c
    case NameCall(slot, value, _, _) => if slot == Some(x) then Some(value) else None
    case RelationCall(t, p, _) =>
      if |p.values| != 3 then None
      else if x == t[0] then Some(p.values[0])
      else if x == t[1] then Some(p.values[1])
      else if x == t[2] then Some(p.values[2])
      else None
  }

  /** The name that the last call asked the slot to have, or the one it had before. */
  function LastAsked(name: string, calls: seq<Call>, x: nat): string {
    if calls == [] then name
    else Asked(calls[|calls| - 1], x).GetOr(LastAsked(name, calls[..|calls| - 1], x))
  }

  ghost predicate GroupsUpTo(log: Log, n: nat) {
    forall x: nat :: GroupAt(log, x) <= n
  }

  lemma NameGroupsUpTo(s: State, slot: Option<nat>, value: string, spelling: Option<string>, limits: NameLimits, n: nat)
    requires (slot.Some? ==> slot.value in s.names) && Distinct(s.log) && GroupsUpTo(s.log, n)
    ensures var r := AfterSetName(s, slot, value, spelling, limits).0; r.failed || GroupsUpTo(r.log, n)
  {
    NameOutcome(s, slot, value, spelling, limits);
    if slot.Some? {
      forall x: nat
        ensures GroupAt(Renamed(s, slot.value, value, spelling, Ok).0.log, x) <= n
      {
        RenamedEntries(s, slot.value, value, spelling, x);
        LogAfterEntries(s, slot.value, value, spelling, x);
        assert GroupAt(s.log, slot.value) <= n && GroupAt(s.log, x) <= n;
      }
    }
    hide AfterSetName, Renamed;
  }

  lemma InstalledGroupsUpTo(s: State, t: Triple, p: Path, l: PathLimits, group: nat, n: nat)
    requires IsPath(p) && AreLimits(l) && SlotsNamed(s.names, t) && Distinct(s.log)
    requires GroupsUpTo(s.log, n) && group <= n + 1
    ensures GroupsUpTo(Installed(PreparedPath(s.log, s.names, t, 3), s.names, t, p, l, group), n + 1)
  {
    hide Installed, PreparedPath, Changes, Spelled, WhollyRestored;
    var log := PreparedPath(s.log, s.names, t, 3);
    PathEntries(s.log, s.names, t, 0);
    forall k | 0 <= k < 3 ensures Entry(log, t[k]).Some? {
      PathEntries(s.log, s.names, t, t[k]);
    }
    forall x: nat
      ensures GroupAt(Installed(log, s.names, t, p, l, group), x) <= n + 1
    {
      PathEntries(s.log, s.names, t, x);
      assert GroupAt(s.log, x) <= n;
      InstalledEntries(log, s.names, t, p, l, group, x);
    }
  }

  lemma PathGroupsUpTo(parse: map<nat, string>, triples: map<nat, Triple>, s: State, t: Triple, p: Path, l: PathLimits,
                       n: nat)
    requires Known(triples) && Tracks(parse, s) && Grouped(triples, s.log) && GroupsUpTo(s.log, n)
    requires IsPath(p) && AreLimits(l) && SlotsNamed(parse, t) && t[0] in triples && triples[t[0]] == t
    ensures GroupsUpTo(AfterReplace(s, t, p, l).0.log, n + 1)
  {
    hide AfterReplace, Installed, PreparedPath, NamesAfter, CommonGroup, GroupAt, Known, Grouped;
    var log, common := PreparedPath(s.log, s.names, t, 3), GroupAt(s.log, t[0]);
    DistinctLog(parse, s);
    PathGroups(triples, s.log, s.names, t);
    ReplaceOutcome(s, t, p, l, common);
    TopGroup(log, n + 1);
    GroupsSeen(log, n + 1);
    assert forall x: nat :: GroupAt(log, x) == GroupAt(s.log, x) <= n;
    InstalledGroupsUpTo(s, t, p, l, if common == 0 then MaxGroup(log, |log|) + 1 else common, n);
  }

  lemma SmoothName(s: State, c: Call, x: nat)
    requires c.NameCall? && Smooth(c) && c.slot.value in s.names && x in s.names
    ensures var r := AfterSetName(s, c.slot, c.value, c.spelling, c.nameLimits);
            && r.1 == Ok && x in r.0.names && r.0.names[x] == Asked(c, x).GetOr(s.names[x]) && r.0.failed == s.failed
  {
    NameSucceeds(s, c.slot, c.value, c.spelling, c.nameLimits);
    hide AfterSetName;
  }

  lemma ReadyForPath(triples: map<nat, Triple>, log: Log, t: Triple, n: nat)
    requires Distinct(log) && Grouped(triples, log) && GroupsUpTo(log, n) && n < SIZE_MAX
    requires t[0] in triples && triples[t[0]] == t
    ensures OneOrNone(log, t) && GroupLeft(log, t)
  {
    hide OneOrNone;
    OneOrNoneMeans(log, t);
    GroupsSeen(log, n + 1);
    assert t[1] in triples[t[0]] && t[2] in triples[t[0]];
  }

  lemma AskedPath(names: map<nat, string>, c: Call, x: nat)
    requires c.RelationCall? && IsPath(c.path) && x in names
    ensures var t, p := c.relation, c.path;
            names[t[0] := p.values[0]][t[1] := p.values[1]][t[2] := p.values[2]][x] == Asked(c, x).GetOr(names[x])
  {
  }

  lemma SmoothPath(parse: map<nat, string>, triples: map<nat, Triple>, s: State, c: Call, n: nat, x: nat)
    requires Known(triples) && Tracks(parse, s) && Grouped(triples, s.log) && GroupsUpTo(s.log, n) && n < SIZE_MAX
    requires c.RelationCall? && Smooth(c) && Addressed(parse, triples, c) && x in s.names
    ensures SlotsNamed(s.names, c.relation)
    ensures var r := AfterReplace(s, c.relation, c.path, c.pathLimits);
            && r.1 == Ok && x in r.0.names && r.0.names[x] == Asked(c, x).GetOr(s.names[x]) && r.0.failed == s.failed
  {
    hide AfterReplace, OneOrNone, GroupLeft, Tracks, Grouped, Known, GroupsUpTo, Asked, Unlogged;
    DistinctLog(parse, s);
    ReadyForPath(triples, s.log, c.relation, n);
    PathSucceeds(s, c.relation, c.path, c.pathLimits);
    AskedPath(s.names, c, x);
  }

  lemma {:induction false} FirstAsked(name: string, c: Call, calls: seq<Call>, x: nat)
    ensures LastAsked(name, [c] + calls, x) == LastAsked(Asked(c, x).GetOr(name), calls, x)
    decreases |calls|
  {
    var all := [c] + calls;
    if calls == [] {
      assert all[..0] == [];
    } else {
      assert all[..|all| - 1] == [c] + calls[..|calls| - 1];
      FirstAsked(name, c, calls[..|calls| - 1], x);
    }
  }

  /** What one smooth call does, whatever the calls before it were. */
  lemma SmoothStep(parse: map<nat, string>, triples: map<nat, Triple>, s: State, c: Call, n: nat)
    requires Known(triples) && Tracks(parse, s) && Grouped(triples, s.log) && GroupsUpTo(s.log, n) && n < SIZE_MAX
    requires Smooth(c) && Addressed(parse, triples, c) && s.names.Keys == parse.Keys && !s.failed
    ensures var r := Step(parse, triples, s, c);
            && r.1 == Ok && !r.0.failed && Sound(parse, triples, r.0) && GroupsUpTo(r.0.log, n + 1)
            && forall x | x in parse :: r.0.names[x] == Asked(c, x).GetOr(s.names[x])
  {
    hide AfterSetName, AfterReplace, Tracks, Grouped, Known, Asked, Smooth;
    DistinctLog(parse, s);
    match c {
      case NameCall(slot, value, spelling, limits) =>
        SmoothUsable(c);
        NameKeeps(parse, triples, s, slot, value, spelling, limits);
        NameGroupsUpTo(s, slot, value, spelling, limits, n);
        SmoothName(s, c, slot.value);
      case RelationCall(t, p, l) =>
        ReplaceKeeps(parse, triples, s, t, p, l);
        PathGroupsUpTo(parse, triples, s, t, p, l, n);
        SmoothPath(parse, triples, s, c, n, t[0]);
    }
    forall x | x in parse ensures Step(parse, triples, s, c).0.names[x] == Asked(c, x).GetOr(s.names[x]) {
      if c.NameCall? {
        SmoothName(s, c, x);
      } else {
        SmoothPath(parse, triples, s, c, n, x);
      }
    }
  }

  lemma SmoothUsable(c: Call)
    requires c.NameCall? && Smooth(c)
    ensures c.slot.Some?
  {
  }

  lemma {:induction false} SmoothRunFrom(parse: map<nat, string>, triples: map<nat, Triple>, s: State,
                                         calls: seq<Call>, n: nat)
    requires Known(triples) && Sound(parse, triples, s) && !s.failed && s.names.Keys == parse.Keys
    requires forall c | c in calls :: Addressed(parse, triples, c) && Smooth(c)
    requires GroupsUpTo(s.log, n) && n + |calls| <= SIZE_MAX
    ensures var r := Run(parse, triples, s, calls);
            !r.failed && forall x | x in parse :: r.names[x] == LastAsked(s.names[x], calls, x)
    decreases |calls|
  {
    hide Smooth, GroupsUpTo, Tracks, Grouped, Known, Step, Asked;
    if calls != [] {
      var c, rest := calls[0], calls[1..];
      assert c in calls && calls == [c] + rest;
      SmoothStep(parse, triples, s, c, n);
      var next := Step(parse, triples, s, c).0;
      SmoothRunFrom(parse, triples, next, rest, n + 1);
      forall x | x in parse
        ensures LastAsked(s.names[x], calls, x) == LastAsked(next.names[x], rest, x)
      {
        FirstAsked(s.names[x], c, rest, x);
      }
    }
  }

  /** After any run of calls that nothing stops every slot has the name that the last
      call for it asked for.  The run is shorter than there are group numbers. */
  lemma RunEndsAsAsked(parse: map<nat, string>, triples: map<nat, Triple>, calls: seq<Call>)
    requires Known(triples) && |calls| <= SIZE_MAX
    requires forall c | c in calls :: Addressed(parse, triples, c) && Smooth(c)
    ensures var r := Run(parse, triples, Fresh(parse), calls);
            !r.failed && forall x | x in parse :: r.names[x] == LastAsked(parse[x], calls, x)
  {
    FreshIsSound(parse, triples);
    SmoothRunFrom(parse, triples, Fresh(parse), calls, 0);
  }

  // ----- there and back

  /** Neither the call nor a slot it takes a name from gives a spelling. */
  predicate Unspelled(c: Call) {
    match c
    case NameCall(_, _, spelling, _) => spelling == None
    case RelationCall(_, p, l) => p.spellings == [None, None, None] && l.borrowed == [None, None, None]
  }

  /** No record asks for a spelling, and each has a reason: its own name differs from
      the original, or some name of its relation does. */
  ghost predicate Needed(log: Log) {
    && (forall x: nat :: Entry(log, x).Some? ==> Entry(log, x).value.spelling == None)
    && (forall x: nat :: GroupAt(log, x) != 0 ==> Differs(log, GroupAt(log, x)))
  }

  ghost predicate Differs(log: Log, g: nat) {
    exists y: nat ::
      GroupAt(log, y) == g && Entry(log, y).Some? && Entry(log, y).value.value != Entry(log, y).value.original
  }

  lemma NameStaysNeeded(s: State, slot: nat, value: string)
    requires slot in s.names && Distinct(s.log) && Needed(s.log)
    ensures Needed(Renamed(s, slot, value, None, Ok).0.log)
  {
    var after := Renamed(s, slot, value, None, Ok).0.log;
    var log, i := LogAfter(s, slot, value, None), Find(s.log, slot);
    var g := GroupAt(s.log, slot);
    forall x: nat
      ensures i < |log| && log[i].slot == slot && log[i].group == g && log[i].spelling == None
      ensures Entry(after, x) == if Dropped(log, i, None, x) then None
                                 else if x == slot then Some(log[i]) else Entry(s.log, x)
      ensures Entry(log, x) == if x == slot then Some(log[i]) else Entry(s.log, x)
    {
      RenamedEntries(s, slot, value, None, x);
      LogAfterEntries(s, slot, value, None, x);
    }
    LogAfterEntries(s, slot, value, None, slot);
    hide Renamed, LogAfter, Find, Entry;
    forall x: nat | GroupAt(after, x) != 0
      ensures Differs(after, GroupAt(after, x))
    {
      if GroupAt(after, x) == g {
        assert !Restored(log, g);
        var k :| 0 <= k < |log| && log[k].group == g && log[k].value != log[k].original;
        EntryAt(log, k);
        assert GroupAt(after, log[k].slot) == g;
      } else {
        assert Differs(s.log, GroupAt(s.log, x));
        var y: nat :| GroupAt(s.log, y) == GroupAt(s.log, x) && Entry(s.log, y).Some?
                      && Entry(s.log, y).value.value != Entry(s.log, y).value.original;
        assert GroupAt(after, y) == GroupAt(s.log, y);
      }
    }
  }

  /** The records that an unspelled path leaves behind. */
  lemma UnspelledEntries(s: State, t: Triple, p: Path, l: PathLimits, group: nat, x: nat)
    requires IsPath(p) && AreLimits(l) && SlotsNamed(s.names, t) && Distinct(s.log) && Needed(s.log)
    requires p.spellings == [None, None, None] && l.borrowed == [None, None, None]
    ensures var log := PreparedPath(s.log, s.names, t, 3);
            var after := Installed(log, s.names, t, p, l, group);
            && (Entry(after, x).Some? ==> Entry(after, x).value.spelling == None)
            && (x !in t ==> Entry(after, x) == Entry(s.log, x))
            && (x in t ==> GroupAt(after, x) == if WhollyRestored(log, s.names, t, p, l) then 0 else group)
            && (x in t && !WhollyRestored(log, s.names, t, p, l) ==>
                  Entry(after, x).Some? && Entry(after, x).value.value == NewValue(t, p, x)
                  && Entry(log, x).Some? && Entry(after, x).value.original == Entry(log, x).value.original)
  {
    var log := PreparedPath(s.log, s.names, t, 3);
    PathEntries(s.log, s.names, t, x);
    forall k | 0 <= k < 3 ensures Entry(log, t[k]).Some? {
      PathEntries(s.log, s.names, t, t[k]);
    }
    InstalledEntries(log, s.names, t, p, l, group, x);
    AssignedEntries(log, s.names, t, p, l, group, x);
    hide PreparedPath, WhollyRestored, NewValue;
  }

  /** Unless the whole relation is restored, one of its new names is not the original. */
  lemma MovedPart(s: State, t: Triple, p: Path, l: PathLimits, group: nat)
    requires IsPath(p) && AreLimits(l) && SlotsNamed(s.names, t) && Distinct(s.log) && Needed(s.log)
    requires p.spellings == [None, None, None] && l.borrowed == [None, None, None]
    requires !WhollyRestored(PreparedPath(s.log, s.names, t, 3), s.names, t, p, l)
    ensures Differs(Installed(PreparedPath(s.log, s.names, t, 3), s.names, t, p, l, group), group)
  {
    var log := PreparedPath(s.log, s.names, t, 3);
    var after := Installed(log, s.names, t, p, l, group);
    hide Installed, PreparedPath, NewValue, Entry, SlotRestored;
    var k: nat := if !SlotRestored(log, s.names, t, p, l, 0) then 0
                  else if !SlotRestored(log, s.names, t, p, l, 1) then 1 else 2;
    assert t[k] in t;
    UnspelledEntries(s, t, p, l, group, t[k]);
    PartNotRestored(log, s.names, t, p, l, k);
    assert GroupAt(after, t[k]) == group;
  }

  lemma PartNotRestored(log: Log, names: map<nat, string>, t: Triple, p: Path, l: PathLimits, k: nat)
    requires IsPath(p) && AreLimits(l) && SlotsNamed(names, t) && k < 3 && Entry(log, t[k]).Some?
    requires p.spellings == [None, None, None] && l.borrowed == [None, None, None]
    requires !SlotRestored(log, names, t, p, l, k)
    ensures t[k] in t && Entry(log, t[k]).value.original != NewValue(t, p, t[k])
  {
  }

  lemma OtherRelation(triples: map<nat, Triple>, s: State, t: Triple, p: Path, l: PathLimits, group: nat, x: nat)
    requires Distinct(s.log) && Grouped(triples, s.log) && Known(triples) && Needed(s.log)
    requires t[0] in triples && triples[t[0]] == t && x !in t && GroupAt(s.log, x) != 0
    requires IsPath(p) && AreLimits(l) && SlotsNamed(s.names, t)
    requires p.spellings == [None, None, None] && l.borrowed == [None, None, None]
    ensures Differs(Installed(PreparedPath(s.log, s.names, t, 3), s.names, t, p, l, group), GroupAt(s.log, x))
  {
    hide Installed, PreparedPath, Find, Entry, WhollyRestored;
    var after := Installed(PreparedPath(s.log, s.names, t, 3), s.names, t, p, l, group);
    assert Differs(s.log, GroupAt(s.log, x));
    var y: nat :| GroupAt(s.log, y) == GroupAt(s.log, x) && Entry(s.log, y).Some?
                  && Entry(s.log, y).value.value != Entry(s.log, y).value.original;
    RelationsApart(triples, s.log, t, x, y);
    UnspelledEntries(s, t, p, l, group, y);
    assert GroupAt(after, y) == GroupAt(s.log, y);
  }

  lemma RelationsApart(triples: map<nat, Triple>, log: Log, t: Triple, x: nat, y: nat)
    requires Grouped(triples, log) && Known(triples) && t[0] in triples && triples[t[0]] == t
    requires x !in t && GroupAt(log, x) != 0 && GroupAt(log, x) == GroupAt(log, y)
    ensures y !in t
  {
    hide GroupAt;
    assert triples[x] == triples[y] && x in triples[x];
    assert forall m | m in t :: triples[m] == t;
  }

  lemma PathStaysNeeded(triples: map<nat, Triple>, s: State, t: Triple, p: Path, l: PathLimits, group: nat)
    requires Distinct(s.log) && Grouped(triples, s.log) && Known(triples) && Needed(s.log)
    requires t[0] in triples && triples[t[0]] == t
    requires IsPath(p) && AreLimits(l) && SlotsNamed(s.names, t) && group != 0
    requires p.spellings == [None, None, None] && l.borrowed == [None, None, None]
    ensures Needed(Installed(PreparedPath(s.log, s.names, t, 3), s.names, t, p, l, group))
  {
    var log := PreparedPath(s.log, s.names, t, 3);
    var after := Installed(log, s.names, t, p, l, group);
    forall x: nat
      ensures Entry(after, x).Some? ==> Entry(after, x).value.spelling == None
      ensures GroupAt(after, x) != 0 ==> Differs(after, GroupAt(after, x))
    {
      UnspelledEntries(s, t, p, l, group, x);
      hide Installed, PreparedPath, WhollyRestored;
      if x in t {
        if !WhollyRestored(log, s.names, t, p, l) {
          MovedPart(s, t, p, l, group);
        }
      } else if GroupAt(after, x) != 0 {
        OtherRelation(triples, s, t, p, l, group, x);
      }
    }
  }

  lemma UnspelledStep(parse: map<nat, string>, triples: map<nat, Triple>, s: State, c: Call)
    requires Known(triples) && Tracks(parse, s) && Grouped(triples, s.log) && Needed(s.log)
    requires Unspelled(c) && Addressed(parse, triples, c) && s.names.Keys == parse.Keys
    ensures var r := Step(parse, triples, s, c).0; r.failed || Needed(r.log)
  {
    hide AfterSetName, AfterReplace, Renamed, Installed, PreparedPath, NamesAfter, Tracks, Grouped, Known, Needed;
    DistinctLog(parse, s);
    match c {
      case NameCall(slot, value, spelling, limits) =>
        NameOutcome(s, slot, value, spelling, limits);
        if slot.Some? {
          NameStaysNeeded(s, slot.value, value);
        }
      case RelationCall(t, p, l) =>
        var log := PreparedPath(s.log, s.names, t, 3);
        PathGroups(triples, s.log, s.names, t);
        var common := GroupAt(s.log, t[0]);
        ReplaceOutcome(s, t, p, l, common);
        PathStaysNeeded(triples, s, t, p, l, if common == 0 then MaxGroup(log, |log|) + 1 else common);
    }
  }

  lemma {:induction false} UnspelledRun(parse: map<nat, string>, triples: map<nat, Triple>, s: State, calls: seq<Call>)
    requires Known(triples) && Sound(parse, triples, s) && s.names.Keys == parse.Keys
    requires forall c | c in calls :: Addressed(parse, triples, c) && Unspelled(c)
    requires s.failed || Needed(s.log)
    ensures var r := Run(parse, triples, s, calls); r.failed || Needed(r.log)
    decreases |calls|
  {
    hide Tracks, Grouped, Known, Step, Needed, Addressed, Unspelled;
    if calls != [] && !s.failed {
      var c := calls[0];
      assert c in calls;
      UnspelledStep(parse, triples, s, c);
      StepKeeps(parse, triples, s, c);
      UnspelledRun(parse, triples, Step(parse, triples, s, c).0, calls[1..]);
    }
  }

  lemma StepKeeps(parse: map<nat, string>, triples: map<nat, Triple>, s: State, c: Call)
    requires Known(triples) && Tracks(parse, s) && Grouped(triples, s.log)
    requires Addressed(parse, triples, c) && s.names.Keys == parse.Keys
    ensures Sound(parse, triples, Step(parse, triples, s, c).0)
  {
    hide Tracks, Grouped, Known, AfterSetName, AfterReplace, Sound;
    match c {
      case NameCall(slot, value, spelling, limits) => NameKeeps(parse, triples, s, slot, value, spelling, limits);
      case RelationCall(t, p, l) => ReplaceKeeps(parse, triples, s, t, p, l);
    }
  }

  /** After any run of unspelled renames and relation paths a slot is logged only
      while its own name or another of its relation differs from the parse-time name. */
  lemma UnspelledLogIsNeeded(parse: map<nat, string>, triples: map<nat, Triple>, calls: seq<Call>, x: nat)
    requires Known(triples) && forall c | c in calls :: Addressed(parse, triples, c) && Unspelled(c)
    requires x in parse && !Run(parse, triples, Fresh(parse), calls).failed
    ensures var r := Run(parse, triples, Fresh(parse), calls);
            && (r.names[x] != parse[x] ==> Entry(r.log, x).Some?)
            && (Entry(r.log, x).Some? ==>
                  || r.names[x] != parse[x]
                  || (x in triples && exists y | y in triples[x] && y in parse :: r.names[y] != parse[y]))
  {
    var r := Run(parse, triples, Fresh(parse), calls);
    FreshIsSound(parse, triples);
    RunKeeps(parse, triples, Fresh(parse), calls);
    UnspelledRun(parse, triples, Fresh(parse), calls);
    assert Tracked(parse, r, x);
    hide Run, Find;
    var g := GroupAt(r.log, x);
    if Entry(r.log, x).Some? && g != 0 {
      assert Differs(r.log, g);
      var y: nat :| GroupAt(r.log, y) == g && Entry(r.log, y).Some?
                    && Entry(r.log, y).value.value != Entry(r.log, y).value.original;
      assert Tracked(parse, r, y);
      assert triples[x] == triples[y] && y in triples[y];
    }
  }

  /** There and back: when unspelled calls that nothing stops end by asking every slot
      for its parse-time name, names and log are those of the parse. */
  lemma ThereAndBackLeavesNothing(parse: map<nat, string>, triples: map<nat, Triple>, calls: seq<Call>)
    requires Known(triples) && |calls| <= SIZE_MAX
    requires forall c | c in calls :: Addressed(parse, triples, c) && Smooth(c) && Unspelled(c)
    requires forall x | x in parse :: LastAsked(parse[x], calls, x) == parse[x]
    ensures Run(parse, triples, Fresh(parse), calls) == Fresh(parse)
  {
    hide LastAsked, Smooth, Unspelled, Addressed, Known, Run;
    RunEndsAsAsked(parse, triples, calls);
    var r := Run(parse, triples, Fresh(parse), calls);
    assert r.names == parse;
    if r.log != [] {
      FreshIsSound(parse, triples);
      RunKeeps(parse, triples, Fresh(parse), calls);
      EntryAt(r.log, 0);
      UnspelledLogIsNeeded(parse, triples, calls, r.log[0].slot);
      assert false;
    }
  }
}

/** When a spelling recorded for a slot stays recorded, call by call and over whole runs. */
module SpellingRuns {
  import opened Wrappers
  import opened ChangeLog
  import opened Renames
  import opened RenameRuns

  function SpellingAt(log: Log, slot: nat): Option<string> {
    var e := Entry(log, slot);
    if e.Some? then e.value.spelling else None
  }

  // ----- one call

  /** A spelling given with a rename stays recorded exactly if the rename does not
      bring a relation, of which the slot is part, back to its original names. */
  lemma SpellingIsKeptUnlessRelationIsRestored(s: State, slot: nat, value: string, spelling: string)
    requires slot in s.names && Distinct(s.log)
    ensures var log, group := LogAfter(s, slot, value, Some(spelling)), GroupAt(s.log, slot);
            var e := Entry(Renamed(s, slot, value, Some(spelling), Ok).0.log, slot);
            e.Some? && e.value.spelling == Some(spelling) <==> group == 0 || !Restored(log, group)
  {
    RenamedEntries(s, slot, value, Some(spelling), slot);
    LogAfterEntries(s, slot, value, Some(spelling), slot);
  }

  const LOST_PARSE: map<nat, string> := map[0 := "", 1 := "", 2 := "t"]
  const LOST_SLOTS: Triple := [0, 1, 2]
  const LOST_PATH := Path(["", "", "u"], [None, None, None])
  const NO_PATH_LIMITS := PathLimits(Ok, [None, None, None], [true, true, true], true)
  const NO_LIMITS := NameLimits(false, true, true, Ok, true, Ok)
  const LOST_LOG: Log := [Mutation(0, "", "", None, 1), Mutation(1, "", "", None, 1), Mutation(2, "t", "u", None, 1)]

  /** A run that loses one: the relation name is changed through its path and then
      set back with a spelling of its own. */
  lemma SpellingLost()
    ensures SlotsNamed(LOST_PARSE, LOST_SLOTS) && IsPath(LOST_PATH) && AreLimits(NO_PATH_LIMITS)
    ensures var first := AfterReplace(Fresh(LOST_PARSE), LOST_SLOTS, LOST_PATH, NO_PATH_LIMITS).0;
            && 2 in first.names
            && var last := AfterSetName(first, Some(2), "t", Some("\"t\""), NO_LIMITS);
               last.1 == Ok && Entry(last.0.log, 2).None?
  {
    RelationMoved();
    hide AfterReplace, AfterSetName, Entry;
    NameSetBack(AfterReplace(Fresh(LOST_PARSE), LOST_SLOTS, LOST_PATH, NO_PATH_LIMITS).0);
  }

  lemma NameSetBack(first: State)
    requires first.log == LOST_LOG && 2 in first.names && first.names[2] == "u"
    ensures var last := AfterSetName(first, Some(2), "t", Some("\"t\""), NO_LIMITS);
            last.1 == Ok && Entry(last.0.log, 2).None?
  {
    EntryAt(first.log, 2);
    var log := LogAfter(first, 2, "t", Some("\"t\""));
    assert log == [Mutation(0, "", "", None, 1), Mutation(1, "", "", None, 1), Mutation(2, "t", "t", Some("\"t\""), 1)];
    RenamedEntries(first, 2, "t", Some("\"t\""), 2);
    EntryAt(log, 2);
    assert Dropped(log, 2, Some("\"t\""), 2);
  }

  lemma RelationMoved()
    ensures SlotsNamed(LOST_PARSE, LOST_SLOTS) && IsPath(LOST_PATH) && AreLimits(NO_PATH_LIMITS)
    ensures var first := AfterReplace(Fresh(LOST_PARSE), LOST_SLOTS, LOST_PATH, NO_PATH_LIMITS).0;
            first.log == LOST_LOG && 2 in first.names && first.names[2] == "u"
  {
    var log := [Mutation(0, "", "", None, 0), Mutation(1, "", "", None, 0), Mutation(2, "t", "t", None, 0)];
    PathSteps([], LOST_PARSE, LOST_SLOTS);
    assert PreparedPath([], LOST_PARSE, LOST_SLOTS, 3) == log;
    OneGroup(log, LOST_SLOTS, 0);
    assert MaxGroup(log, 3) == 0;
    NamesAfterPath(LOST_PARSE, LOST_SLOTS, LOST_PATH);
    assert !SlotRestored(log, LOST_PARSE, LOST_SLOTS, LOST_PATH, NO_PATH_LIMITS, 2);
    LogMoved(log);
    hide PreparedPath, CommonGroup, MaxGroup, NamesAfter, AssignedAll, SlotRestored;
  }

  lemma LogMoved(log: Log)
    requires log == [Mutation(0, "", "", None, 0), Mutation(1, "", "", None, 0), Mutation(2, "t", "t", None, 0)]
    requires SlotsNamed(LOST_PARSE, LOST_SLOTS) && IsPath(LOST_PATH) && AreLimits(NO_PATH_LIMITS)
    ensures AssignedAll(log, LOST_PARSE, LOST_SLOTS, LOST_PATH, NO_PATH_LIMITS, 1) == LOST_LOG
  {
    assert Assigned(log[0], LOST_PARSE, LOST_SLOTS, LOST_PATH, NO_PATH_LIMITS, 1) == LOST_LOG[0];
    assert Assigned(log[1], LOST_PARSE, LOST_SLOTS, LOST_PATH, NO_PATH_LIMITS, 1) == LOST_LOG[1];
    assert Assigned(log[2], LOST_PARSE, LOST_SLOTS, LOST_PATH, NO_PATH_LIMITS, 1) == LOST_LOG[2];
  }

  // ----- a relation path

  /** Where in the relation a slot stands. */
  function Part(t: Triple, x: nat): (k: nat)
    requires x in t
    ensures k < 3 && t[k] == x
  {
    if x == t[0] then 0 else if x == t[1] then 1 else 2
  }

  /** The call changes something and succeeds. */
  predicate PathTakes(s: State, t: Triple, p: Path, l: PathLimits)
    requires IsPath(p) && AreLimits(l) && SlotsNamed(s.names, t)
  {
    && (Changes(s.names, t, p, 0) || Changes(s.names, t, p, 1) || Changes(s.names, t, p, 2))
    && AfterReplace(s, t, p, l).1 == Ok
  }

  lemma PathExact(s: State, t: Triple, p: Path, l: PathLimits, common: nat)
    requires IsPath(p) && AreLimits(l) && SlotsNamed(s.names, t)
    requires CommonGroup(PreparedPath(s.log, s.names, t, 3), t, 3) == Some(common)
    ensures var log := PreparedPath(s.log, s.names, t, 3);
            var group := if common == 0 then MaxGroup(log, |log|) + 1 else common;
            AfterReplace(s, t, p, l).0 ==
              if PathTakes(s, t, p, l)
              then State(NamesAfter(s.names, t, p, 3), Installed(log, s.names, t, p, l, group), s.failed) else s
  {
    hide PreparedPath, CommonGroup, MaxGroup, NamesAfter, Installed, Changes, LogMemoryLasts;
  }

  /** The parse-time name of a slot, as its record keeps it or as it stands. */
  function Original(s: State, x: nat): string
    requires x in s.names
  {
    var e := Entry(s.log, x);
    if e.Some? then e.value.original else s.names[x]
  }

  /** A part gets the spelling that comes with it, or the borrowed one if it is renamed
      without one; an empty part gets none. */
  lemma SpelledMeans(names: map<nat, string>, t: Triple, p: Path, l: PathLimits, k: nat)
    requires IsPath(p) && AreLimits(l) && k < 3 && t[k] in names
    ensures var spelled := Spelled(names, t, p, l, k);
            && (p.values[k] == "" ==> spelled == None)
            && (p.values[k] != "" && p.spellings[k].Some? ==> spelled == p.spellings[k])
            && (p.values[k] != "" && p.spellings[k] == None ==>
                  spelled == if names[t[k]] != p.values[k] then l.borrowed[k] else None)
    ensures Changes(names, t, p, k) <==> names[t[k]] != p.values[k] || p.spellings[k].Some?
  {
  }

  /** The path takes the whole relation back to its parse-time names and gives no part
      of it a spelling. */
  predicate Restores(s: State, t: Triple, p: Path, l: PathLimits)
    requires IsPath(p) && AreLimits(l) && SlotsNamed(s.names, t)
  {
    PartRestored(s, t, p, l, 0) && PartRestored(s, t, p, l, 1) && PartRestored(s, t, p, l, 2)
  }

  predicate PartRestored(s: State, t: Triple, p: Path, l: PathLimits, k: nat)
    requires IsPath(p) && AreLimits(l) && SlotsNamed(s.names, t) && k < 3
  {
    Original(s, t[k]) == p.values[k] && Spelled(s.names, t, p, l, k).None?
  }

  lemma SlotRestoredIff(s: State, t: Triple, p: Path, l: PathLimits, k: nat)
    requires IsPath(p) && AreLimits(l) && SlotsNamed(s.names, t) && Distinct(s.log) && k < 3
    ensures SlotRestored(PreparedPath(s.log, s.names, t, 3), s.names, t, p, l, k)
       <==> PartRestored(s, t, p, l, k)
  {
    hide PreparedPath, Spelled;
    PathEntries(s.log, s.names, t, t[k]);
  }

  lemma RestoresIff(s: State, t: Triple, p: Path, l: PathLimits)
    requires IsPath(p) && AreLimits(l) && SlotsNamed(s.names, t) && Distinct(s.log)
    ensures WhollyRestored(PreparedPath(s.log, s.names, t, 3), s.names, t, p, l) <==> Restores(s, t, p, l)
  {
    hide PreparedPath, PartRestored, SlotRestored;
    SlotRestoredIff(s, t, p, l, 0);
    SlotRestoredIff(s, t, p, l, 1);
    SlotRestoredIff(s, t, p, l, 2);
  }

  lemma InstalledSpelling(s: State, t: Triple, p: Path, l: PathLimits, group: nat, x: nat)
    requires IsPath(p) && AreLimits(l) && SlotsNamed(s.names, t) && Distinct(s.log)
    ensures var after := Installed(PreparedPath(s.log, s.names, t, 3), s.names, t, p, l, group);
            SpellingAt(after, x) ==
              if x !in t then SpellingAt(s.log, x)
              else if Restores(s, t, p, l) then None
              else if Changes(s.names, t, p, Part(t, x)) then Spelled(s.names, t, p, l, Part(t, x))
              else SpellingAt(s.log, x)
  {
    var log := PreparedPath(s.log, s.names, t, 3);
    PathsLogged(s, t);
    PathEntries(s.log, s.names, t, x);
    RestoresIff(s, t, p, l);
    hide PreparedPath, WhollyRestored, Restores, Spelled, Changes;
    if WhollyRestored(log, s.names, t, p, l) {
      TripleEntries(log, t, x);
    } else {
      AssignedEntries(log, s.names, t, p, l, group, x);
    }
  }

  lemma PathsLogged(s: State, t: Triple)
    requires SlotsNamed(s.names, t) && Distinct(s.log)
    ensures Distinct(PreparedPath(s.log, s.names, t, 3))
    ensures forall k | 0 <= k < 3 :: Entry(PreparedPath(s.log, s.names, t, 3), t[k]).Some?
  {
    forall k | 0 <= k < 3
      ensures Entry(PreparedPath(s.log, s.names, t, 3), t[k]).Some?
    {
      PathEntries(s.log, s.names, t, t[k]);
    }
    DistinctPath(s.log, s.names, t);
  }

  /** What a relation path does to the spelling of any slot, whether or not the path
      changes that slot. */
  lemma PathSpelling(parse: map<nat, string>, triples: map<nat, Triple>, s: State, t: Triple, p: Path, l: PathLimits,
                     x: nat)
    requires Known(triples) && Tracks(parse, s) && Grouped(triples, s.log)
    requires IsPath(p) && AreLimits(l) && SlotsNamed(parse, t) && t[0] in triples && triples[t[0]] == t
    ensures SpellingAt(AfterReplace(s, t, p, l).0.log, x) ==
              if !PathTakes(s, t, p, l) || x !in t then SpellingAt(s.log, x)
              else if Restores(s, t, p, l) then None
              else if Changes(s.names, t, p, Part(t, x)) then Spelled(s.names, t, p, l, Part(t, x))
              else SpellingAt(s.log, x)
  {
    hide AfterReplace, Installed, PreparedPath, NamesAfter, CommonGroup, GroupAt, Known, PathTakes, Restores,
         SpellingAt;
    DistinctLog(parse, s);
    PathGroups(triples, s.log, s.names, t);
    var log, common := PreparedPath(s.log, s.names, t, 3), GroupAt(s.log, t[0]);
    PathExact(s, t, p, l, common);
    InstalledSpelling(s, t, p, l, if common == 0 then MaxGroup(log, |log|) + 1 else common, x);
  }

  /** The spelling of a slot that a relation path leaves unchanged survives a call that
      changes the rest exactly if some part does not return to its parse-time name or
      is given a spelling. */
  lemma PathKeepsSpelling(parse: map<nat, string>, triples: map<nat, Triple>, s: State, t: Triple, p: Path,
                          l: PathLimits,
                          k: nat)
    requires IsPath(p) && AreLimits(l) && SlotsNamed(s.names, t) && t[0] in triples && triples[t[0]] == t
    requires k < 3 && !Changes(s.names, t, p, k) && PathTakes(s, t, p, l) && SpellingAt(s.log, t[k]).Some?
    requires Known(triples) && Tracks(parse, s) && Grouped(triples, s.log)
    ensures SpellingAt(AfterReplace(s, t, p, l).0.log, t[k]) == SpellingAt(s.log, t[k]) <==> !Restores(s, t, p, l)
  {
    hide AfterReplace, SpellingAt, Restores, PathTakes, Changes, Known, Grouped;
    DistinctLog(parse, s);
    PathSpelling(parse, triples, s, t, p, l, t[k]);
    PartOf(t, k);
  }

  lemma PartOf(t: Triple, k: nat)
    requires k < 3
    ensures t[k] in t && Part(t, t[k]) == k
  {
  }

  // ----- a single name

  /** The call succeeds and gives the slot another name or another spelling. */
  predicate NameTakes(s: State, slot: nat, value: string, spelling: Option<string>, limits: NameLimits)
    requires slot in s.names
  {
    && (s.names[slot] != value || (spelling.Some? && spelling != SpellingAt(s.log, slot)))
    && AfterSetName(s, Some(slot), value, spelling, limits).1 == Ok
  }

  lemma NameExact(s: State, slot: nat, value: string, spelling: Option<string>, limits: NameLimits)
    requires slot in s.names
    ensures var after := AfterSetName(s, Some(slot), value, spelling, limits).0;
            after.failed
            || after ==
                 if NameTakes(s, slot, value, spelling, limits) then Renamed(s, slot, value, spelling, Ok).0 else s
  {
    hide Settled;
    var ready := Prepared(s.log, slot, s.names[slot]);
    assert Find(s.log, slot) < |ready| && ready[Find(s.log, slot)].spelling == SpellingAt(s.log, slot);
  }

  /** The rename brings every part of x's relation back to its parse-time name. */
  ghost predicate Completes(parse: map<nat, string>, triples: map<nat, Triple>, s: State, slot: nat, value: string,
                            x: nat) {
    && GroupAt(s.log, x) != 0 && x in triples && slot in triples[x]
    && (forall m | m in triples[x] && m != slot :: m in s.names && m in parse && s.names[m] == parse[m])
    && slot in parse && value == parse[slot]
  }

  lemma GroupedSlot(triples: map<nat, Triple>, log: Log, x: nat, y: nat)
    requires Known(triples) && Grouped(triples, log) && GroupAt(log, x) != 0
    ensures x in triples && (GroupAt(log, y) == GroupAt(log, x) <==> y in triples[x])
  {
    hide GroupAt;
  }

  /** The records of the group of x are all back exactly if the rename completes it. */
  lemma RestoredIff(parse: map<nat, string>, triples: map<nat, Triple>, s: State, slot: nat, value: string,
                    spelling: Option<string>, x: nat)
    requires Known(triples) && Tracks(parse, s) && Grouped(triples, s.log) && slot in s.names
    requires GroupAt(s.log, x) != 0 && GroupAt(s.log, slot) == GroupAt(s.log, x)
    ensures Restored(LogAfter(s, slot, value, spelling), GroupAt(s.log, x))
         <==> Completes(parse, triples, s, slot, value, x)
  {
    var log, g := LogAfter(s, slot, value, spelling), GroupAt(s.log, x);
    GroupedSlot(triples, s.log, x, slot);
    if Completes(parse, triples, s, slot, value, x) {
      forall i | 0 <= i < |log| && log[i].group == g
        ensures log[i].value == log[i].original
      {
        MemberBack(parse, triples, s, slot, value, spelling, x, i);
      }
    } else if Restored(log, g) {
      assert slot in triples[x];
      forall m | m in triples[x]
        ensures m in parse && (if m == slot then value else s.names[m]) == parse[m]
      {
        BackMember(parse, triples, s, slot, value, spelling, x, m);
      }
      assert false;
    }
  }

  lemma MemberBack(parse: map<nat, string>, triples: map<nat, Triple>, s: State, slot: nat, value: string,
                   spelling: Option<string>, x: nat, i: nat)
    requires Known(triples) && Tracks(parse, s) && Grouped(triples, s.log) && slot in s.names
    requires Completes(parse, triples, s, slot, value, x)
    requires i < |LogAfter(s, slot, value, spelling)|
    requires LogAfter(s, slot, value, spelling)[i].group == GroupAt(s.log, x)
    ensures LogAfter(s, slot, value, spelling)[i].value == LogAfter(s, slot, value, spelling)[i].original
  {
    var log := LogAfter(s, slot, value, spelling);
    var y := log[i].slot;
    LogAfterEntries(s, slot, value, spelling, y);
    EntryAt(log, i);
    hide Entry, Find, Prepared;
    EntryTracked(parse, s, y);
    EntryTracked(parse, s, slot);
    if y != slot {
      GroupedSlot(triples, s.log, x, y);
    }
  }

  lemma EntryTracked(parse: map<nat, string>, s: State, x: nat)
    requires Tracks(parse, s)
    ensures var e := Entry(s.log, x);
            && (e.Some? ==> x in parse && x in s.names && e.value.value == s.names[x] && e.value.original == parse[x])
            && (e.None? && x in parse ==> x in s.names && s.names[x] == parse[x])
            && GroupAt(s.log, x) == (if e.Some? then e.value.group else 0)
            && SpellingAt(s.log, x) == (if e.Some? then e.value.spelling else None)
  {
    assert x in parse ==> Tracked(parse, s, x);
  }

  lemma BackMember(parse: map<nat, string>, triples: map<nat, Triple>, s: State, slot: nat, value: string,
                   spelling: Option<string>, x: nat, m: nat)
    requires Known(triples) && Tracks(parse, s) && Grouped(triples, s.log) && slot in s.names
    requires GroupAt(s.log, x) != 0 && GroupAt(s.log, slot) == GroupAt(s.log, x)
    requires Restored(LogAfter(s, slot, value, spelling), GroupAt(s.log, x)) && x in triples && m in triples[x]
    ensures m in parse && m in s.names && (if m == slot then value else s.names[m]) == parse[m]
  {
    var log := LogAfter(s, slot, value, spelling);
    LogAfterEntries(s, slot, value, spelling, m);
    GroupedSlot(triples, s.log, x, m);
    var j := Find(log, m);
    assert j < |log| && log[j].group == GroupAt(s.log, x);
    hide Entry, Find, Prepared;
    EntryTracked(parse, s, m);
    EntryTracked(parse, s, slot);
  }

  /** What a rename does to the spelling of any slot. */
  lemma NameSpelling(parse: map<nat, string>, triples: map<nat, Triple>, s: State, slot: nat, value: string,
                     spelling: Option<string>, limits: NameLimits, x: nat)
    requires Known(triples) && Tracks(parse, s) && Grouped(triples, s.log) && slot in s.names
    ensures var after := AfterSetName(s, Some(slot), value, spelling, limits).0;
            after.failed
            || SpellingAt(after.log, x) ==
                 if !NameTakes(s, slot, value, spelling, limits) then SpellingAt(s.log, x)
                 else if Completes(parse, triples, s, slot, value, x) then None
                 else if x == slot then spelling
                 else SpellingAt(s.log, x)
  {
    NameExact(s, slot, value, spelling, limits);
    hide NameTakes, AfterSetName, Tracks, Known, Grouped, Completes, Restored, Prepared;
    DistinctLog(parse, s);
    if NameTakes(s, slot, value, spelling, limits) {
      RenamedEntries(s, slot, value, spelling, x);
      LogAfterEntries(s, slot, value, spelling, x);
      if Completes(parse, triples, s, slot, value, x) {
        CompletesGroup(parse, triples, s, slot, value, x);
      }
      if GroupAt(s.log, x) != 0 && GroupAt(s.log, slot) == GroupAt(s.log, x) {
        RestoredIff(parse, triples, s, slot, value, spelling, x);
      }
    }
  }

  lemma CompletesGroup(parse: map<nat, string>, triples: map<nat, Triple>, s: State, slot: nat, value: string, x: nat)
    requires Known(triples) && Grouped(triples, s.log) && Completes(parse, triples, s, slot, value, x)
    ensures GroupAt(s.log, x) != 0 && GroupAt(s.log, slot) == GroupAt(s.log, x)
  {
    GroupedSlot(triples, s.log, x, slot);
  }

  // ----- whole runs

  /** The spelling, or lack of one, that a call gives a slot. */
  ghost function Gives(parse: map<nat, string>, triples: map<nat, Triple>, s: State, c: Call,
                       x: nat): Option<Option<string>>
    requires s.names.Keys == parse.Keys && Addressed(parse, triples, c)
  {
    match c
    case NameCall(slot, value, spelling, limits) =>
      if slot == Some(x) && NameTakes(s, x, value, spelling, limits) then Some(spelling) else None
    case RelationCall(t, p, l) =>
      if x in t && PathTakes(s, t, p, l) && Changes(s.names, t, p, Part(t, x))
      then Some(Spelled(s.names, t, p, l, Part(t, x))) else None
  }

  /** The relation of x goes back to its parse-time names as a whole: by a rename that
      completes a grouped relation, or by a path that gives no part a spelling. */
  ghost predicate Clears(parse: map<nat, string>, triples: map<nat, Triple>, s: State, c: Call, x: nat)
    requires s.names.Keys == parse.Keys && Addressed(parse, triples, c)
  {
    match c
    case NameCall(slot, value, spelling, limits) =>
      && slot.Some? && NameTakes(s, slot.value, value, spelling, limits)
      && Completes(parse, triples, s, slot.value, value, x)
    case RelationCall(t, p, l) =>
      && x in t && PathTakes(s, t, p, l)
      && p.values == [parse[t[0]], parse[t[1]], parse[t[2]]]
      && Spelled(s.names, t, p, l, 0).None? && Spelled(s.names, t, p, l, 1).None? && Spelled(s.names, t, p, l, 2).None?
  }

  lemma ClearsIsRestores(parse: map<nat, string>, s: State, t: Triple, p: Path, l: PathLimits)
    requires Tracks(parse, s) && IsPath(p) && AreLimits(l) && SlotsNamed(s.names, t)
    ensures Restores(s, t, p, l)
       <==> && p.values == [parse[t[0]], parse[t[1]], parse[t[2]]]
            && Spelled(s.names, t, p, l, 0).None? && Spelled(s.names, t, p, l, 1).None?
            && Spelled(s.names, t, p, l, 2).None?
  {
    hide Spelled, Entry;
    EntryTracked(parse, s, t[0]);
    EntryTracked(parse, s, t[1]);
    EntryTracked(parse, s, t[2]);
  }

  lemma StepSpelling(parse: map<nat, string>, triples: map<nat, Triple>, s: State, c: Call, x: nat)
    requires Known(triples) && Tracks(parse, s) && Grouped(triples, s.log) && Addressed(parse, triples, c)
    ensures var after := Step(parse, triples, s, c).0;
            after.failed
            || SpellingAt(after.log, x) == if Clears(parse, triples, s, c, x) then None
                                           else Gives(parse, triples, s, c, x).GetOr(SpellingAt(s.log, x))
  {
    hide Known, Tracks, Grouped, AfterReplace, AfterSetName, NameTakes, PathTakes, Restores, Changes, Spelled,
         SpellingAt,
         Completes;
    DistinctLog(parse, s);
    match c {
      case NameCall(slot, value, spelling, limits) =>
        if slot.Some? {
          NameSpelling(parse, triples, s, slot.value, value, spelling, limits, x);
        } else {
          NoSlot(s, value, spelling, limits);
        }
      case RelationCall(t, p, l) =>
        PathSpelling(parse, triples, s, t, p, l, x);
        ClearsIsRestores(parse, s, t, p, l);
    }
  }

  lemma NoSlot(s: State, value: string, spelling: Option<string>, limits: NameLimits)
    ensures AfterSetName(s, None, value, spelling, limits).0 == s
  {
  }

  ghost function After(parse: map<nat, string>, triples: map<nat, Triple>, calls: seq<Call>, j: nat): (r: State)
    requires j <= |calls| && forall c | c in calls :: Addressed(parse, triples, c)
    ensures r.names.Keys == parse.Keys
  {
    if j == 0 then Fresh(parse)
    else
      var s := After(parse, triples, calls, j - 1);
      if s.failed then s else Step(parse, triples, s, calls[j - 1]).0
  }

  /** After names the states a run goes through. */
  lemma {:induction false} RunGoesOn(parse: map<nat, string>, triples: map<nat, Triple>, calls: seq<Call>, j: nat)
    requires j <= |calls| && forall c | c in calls :: Addressed(parse, triples, c)
    ensures Run(parse, triples, After(parse, triples, calls, j), calls[j..]) == Run(parse, triples, Fresh(parse), calls)
  {
    if j == 0 {
      assert calls[0..] == calls;
    } else {
      RunGoesOn(parse, triples, calls, j - 1);
      assert calls[j - 1..][1..] == calls[j..] && calls[j - 1..][0] == calls[j - 1];
    }
  }

  lemma {:induction false} Failing(parse: map<nat, string>, triples: map<nat, Triple>, calls: seq<Call>, j: nat, k: nat)
    requires j <= k <= |calls| && forall c | c in calls :: Addressed(parse, triples, c)
    ensures After(parse, triples, calls, j).failed ==> After(parse, triples, calls, k).failed
  {
    hide Step;
    if j < k {
      Failing(parse, triples, calls, j, k - 1);
    }
  }

  lemma {:induction false} AfterIsSound(parse: map<nat, string>, triples: map<nat, Triple>, calls: seq<Call>, j: nat)
    requires Known(triples) && j <= |calls| && forall c | c in calls :: Addressed(parse, triples, c)
    ensures Sound(parse, triples, After(parse, triples, calls, j))
  {
    if j == 0 {
      FreshIsSound(parse, triples);
    } else {
      AfterIsSound(parse, triples, calls, j - 1);
      var s := After(parse, triples, calls, j - 1);
      if !s.failed {
        var one := [calls[j - 1]];
        assert calls[j - 1] in calls;
        RunKeeps(parse, triples, s, one);
        OneStep(parse, triples, s, calls[j - 1]);
      }
    }
  }

  lemma OneStep(parse: map<nat, string>, triples: map<nat, Triple>, s: State, c: Call)
    requires s.names.Keys == parse.Keys && Addressed(parse, triples, c) && !s.failed
    ensures Run(parse, triples, s, [c]) == Step(parse, triples, s, c).0
  {
    assert [c][1..] == [];
  }

  ghost function GivenAt(parse: map<nat, string>, triples: map<nat, Triple>, calls: seq<Call>, j: nat, x: nat)
    : Option<Option<string>>
    requires j < |calls| && forall c | c in calls :: Addressed(parse, triples, c)
  {
    Gives(parse, triples, After(parse, triples, calls, j), calls[j], x)
  }

  ghost predicate ClearedAt(parse: map<nat, string>, triples: map<nat, Triple>, calls: seq<Call>, j: nat, x: nat)
    requires j < |calls| && forall c | c in calls :: Addressed(parse, triples, c)
  {
    Clears(parse, triples, After(parse, triples, calls, j), calls[j], x)
  }

  lemma AfterSpelling(parse: map<nat, string>, triples: map<nat, Triple>, calls: seq<Call>, j: nat, x: nat)
    requires Known(triples) && j < |calls| && forall c | c in calls :: Addressed(parse, triples, c)
    requires !After(parse, triples, calls, j + 1).failed
    ensures SpellingAt(After(parse, triples, calls, j + 1).log, x) ==
              if ClearedAt(parse, triples, calls, j, x) then None
              else GivenAt(parse, triples, calls, j, x).GetOr(SpellingAt(After(parse, triples, calls, j).log, x))
  {
    hide Step, Gives, Clears, Addressed, Known;
    AfterIsSound(parse, triples, calls, j);
    Failing(parse, triples, calls, j, j + 1);
    assert calls[j] in calls;
    StepSpelling(parse, triples, After(parse, triples, calls, j), calls[j], x);
  }

  /** No later call gives the slot a name without a spelling, and none clears it. */
  ghost predicate LeftAlone(parse: map<nat, string>, triples: map<nat, Triple>, calls: seq<Call>, i: nat, n: nat,
                            x: nat)
    requires i < n <= |calls| && forall c | c in calls :: Addressed(parse, triples, c)
  {
    && (forall j | i <= j < n :: !ClearedAt(parse, triples, calls, j, x))
    && (forall j | i < j < n :: GivenAt(parse, triples, calls, j, x).None?)
  }

  lemma {:induction false} SpellingSoFar(parse: map<nat, string>, triples: map<nat, Triple>, calls: seq<Call>, i: nat,
                                         n: nat, x: nat)
    requires Known(triples) && i < n <= |calls| && forall c | c in calls :: Addressed(parse, triples, c)
    requires !After(parse, triples, calls, n).failed
    requires GivenAt(parse, triples, calls, i, x).Some? && GivenAt(parse, triples, calls, i, x).value.Some?
    requires forall j | i < j < n :: GivenAt(parse, triples, calls, j, x).GetOr(None).None?
    ensures SpellingAt(After(parse, triples, calls, n).log, x) ==
              if LeftAlone(parse, triples, calls, i, n, x) then GivenAt(parse, triples, calls, i, x).value else None
    decreases n
  {
    hide After, GivenAt, ClearedAt, SpellingAt, Addressed, Known;
    AfterSpelling(parse, triples, calls, n - 1, x);
    if i < n - 1 {
      Failing(parse, triples, calls, n - 1, n);
      SpellingSoFar(parse, triples, calls, i, n - 1, x);
    }
  }

  /** The last spelling given to a slot is recorded after the run if and only if no
      later call renames the slot without a spelling and, from that call on, no call
      takes its relation back to the parse-time names as a whole.  Otherwise no
      spelling is recorded. */
  lemma SpellingIsRecorded(parse: map<nat, string>, triples: map<nat, Triple>, calls: seq<Call>, i: nat, x: nat)
    requires Known(triples) && i < |calls| && forall c | c in calls :: Addressed(parse, triples, c)
    requires !Run(parse, triples, Fresh(parse), calls).failed
    requires GivenAt(parse, triples, calls, i, x).Some? && GivenAt(parse, triples, calls, i, x).value.Some?
    requires forall j | i < j < |calls| :: GivenAt(parse, triples, calls, j, x).GetOr(None).None?
    ensures SpellingAt(Run(parse, triples, Fresh(parse), calls).log, x) ==
              if LeftAlone(parse, triples, calls, i, |calls|, x)
              then GivenAt(parse, triples, calls, i, x).value else None
  {
    hide After, GivenAt, SpellingAt, Addressed, Known, LeftAlone;
    RunGoesOn(parse, triples, calls, |calls|);
    assert calls[|calls|..] == [];
    SpellingSoFar(parse, triples, calls, i, |calls|, x);
  }

  const PATH_PARSE: map<nat, string> := map[0 := "", 1 := "s", 2 := "t"]
  const PATH_BACK := Path(["", "s", "t"], [None, None, None])
  const PATH_LOG: Log := [Mutation(2, "t", "t", Some("\"t\""), 0), Mutation(1, "s", "q", None, 0)]

  /** A run that loses a spelling of a slot the losing call does not change: a relation
      name is given a spelling, the schema is renamed, and the path that takes the
      schema back takes the record of the relation name with it. */
  lemma SpellingLostByPath()
    ensures SlotsNamed(PATH_PARSE, LOST_SLOTS) && IsPath(PATH_BACK) && AreLimits(NO_PATH_LIMITS)
    ensures var first := AfterSetName(Fresh(PATH_PARSE), Some(2), "t", Some("\"t\""), NO_LIMITS);
            && first.1 == Ok && 1 in first.0.names
            && var second := AfterSetName(first.0, Some(1), "q", None, NO_LIMITS);
               && second.1 == Ok && SpellingAt(second.0.log, 2) == Some("\"t\"")
               && SlotsNamed(second.0.names, LOST_SLOTS) && !Changes(second.0.names, LOST_SLOTS, PATH_BACK, 2)
               && var third := AfterReplace(second.0, LOST_SLOTS, PATH_BACK, NO_PATH_LIMITS);
                  third.1 == Ok && Entry(third.0.log, 2).None?
  {
    SpellingGiven();
    SchemaRenamed();
    hide AfterSetName, AfterReplace, SpellingAt, Entry;
    PathTakenBack();
  }

  lemma SpellingGiven()
    ensures AfterSetName(Fresh(PATH_PARSE), Some(2), "t", Some("\"t\""), NO_LIMITS)
         == (State(PATH_PARSE, PATH_LOG[..1], false), Ok)
  {
    assert PATH_PARSE[2 := "t"] == PATH_PARSE;
    assert Find([], 2) == 0 && Prepared([], 2, "t") == [Mutation(2, "t", "t", None, 0)];
    assert [Mutation(2, "t", "t", None, 0)][0 := Mutation(2, "t", "t", Some("\"t\""), 0)] == PATH_LOG[..1];
    assert PATH_LOG[..1] == [Mutation(2, "t", "t", Some("\"t\""), 0)];
  }

  lemma SchemaRenamed()
    ensures AfterSetName(State(PATH_PARSE, PATH_LOG[..1], false), Some(1), "q", None, NO_LIMITS)
         == (State(PATH_PARSE[1 := "q"], PATH_LOG, false), Ok)
  {
    var log := PATH_LOG[..1];
    assert Find(log, 1) == 1;
    assert "q"[0] != "s"[0];
    assert Prepared(log, 1, "s") == log + [Mutation(1, "s", "s", None, 0)];
    assert (log + [Mutation(1, "s", "s", None, 0)])[1 := Mutation(1, "s", "q", None, 0)] == PATH_LOG;
  }

  lemma PathTakenBack()
    ensures var s := State(PATH_PARSE[1 := "q"], PATH_LOG, false);
            && SlotsNamed(s.names, LOST_SLOTS) && !Changes(s.names, LOST_SLOTS, PATH_BACK, 2)
            && SpellingAt(s.log, 2) == Some("\"t\"")
            && var r := AfterReplace(s, LOST_SLOTS, PATH_BACK, NO_PATH_LIMITS);
               r.1 == Ok && Entry(r.0.log, 2).None?
  {
    var s := State(PATH_PARSE[1 := "q"], PATH_LOG, false);
    var log := PATH_LOG + [Mutation(0, "", "", None, 0)];
    assert PATH_LOG[0].slot == 2 && PATH_LOG[1].slot == 1;
    assert Distinct(log);
    EntryAt(log, 0);
    EntryAt(log, 1);
    EntryAt(log, 2);
    PathSteps(PATH_LOG, s.names, LOST_SLOTS);
    assert PreparedPath(PATH_LOG, s.names, LOST_SLOTS, 3) == log;
    OneGroup(log, LOST_SLOTS, 0);
    assert MaxGroup(log, 1) == 0;
    assert MaxGroup(log, 3) == 0;
    assert WhollyRestored(log, s.names, LOST_SLOTS, PATH_BACK, NO_PATH_LIMITS);
    TripleEntries(log, LOST_SLOTS, 2);
    hide PreparedPath, CommonGroup, MaxGroup, NamesAfter, Keep, WhollyRestored;
  }
}

/** What the log of renamed slots says after any run of renames. */
module RenameRuns {
  import opened Wrappers
  import opened ChangeLog
  import opened Renames

  /** Every slot of a relation leads to that relation. */
  ghost predicate Known(triples: map<nat, Triple>) {
    forall x | x in triples :: x in triples[x] && forall m | m in triples[x] :: m in triples && triples[m] == triples[x]
  }

  // ----- the invariant

  /** A slot without a record has its parse-time name; a record keeps that name and
      the current one, and, outside relations, has a reason to exist. */
  ghost predicate Tracked(parse: map<nat, string>, s: State, x: nat)
    requires x in parse && x in s.names
  {
    var e := Entry(s.log, x);
    if e.None? then s.names[x] == parse[x]
    else
      && e.value.value == s.names[x] && e.value.original == parse[x]
      && (e.value.group == 0 ==> e.value.value != e.value.original || e.value.spelling.Some?)
  }

  ghost predicate Tracks(parse: map<nat, string>, s: State) {
    && Distinct(s.log) && s.names.Keys == parse.Keys
    && (forall x: nat :: Entry(s.log, x).Some? ==> x in parse)
    && (forall x | x in parse :: Tracked(parse, s, x))
  }

  /** Grouped records come as the three records of one relation. */
  ghost predicate Grouped(triples: map<nat, Triple>, log: Log) {
    && (forall x: nat :: GroupAt(log, x) != 0 ==> x in triples)
    && (forall x: nat, m: nat | x in triples && m in triples[x] :: GroupAt(log, m) == GroupAt(log, x))
    && (forall x: nat, y: nat :: GroupAt(log, x) != 0 && GroupAt(log, x) == GroupAt(log, y)
          ==> x in triples && y in triples && triples[x] == triples[y])
  }

  ghost predicate Sound(parse: map<nat, string>, triples: map<nat, Triple>, s: State) {
    s.failed || (Tracks(parse, s) && Grouped(triples, s.log))
  }

  // ----- renaming one identifier

  lemma UpdatedEntries(log: Log, i: nat, e: Mutation, x: nat)
    requires Distinct(log) && i < |log| && e.slot == log[i].slot
    ensures Distinct(log[i := e]) && Find(log[i := e], x) == Find(log, x)
    ensures Entry(log[i := e], x) == if x == e.slot then Some(e) else Entry(log, x)
  {
    SameSlots(log, log[i := e], x);
    EntryAt(log, i);
  }

  function LogAfter(s: State, slot: nat, value: string, spelling: Option<string>): Log
    requires slot in s.names
  {
    var ready := Prepared(s.log, slot, s.names[slot]);
    var i := Find(s.log, slot);
    ready[i := ready[i].(value := value, spelling := spelling)]
  }

  lemma LogAfterEntries(s: State, slot: nat, value: string, spelling: Option<string>, x: nat)
    requires slot in s.names && Distinct(s.log)
    ensures var log, i, e := LogAfter(s, slot, value, spelling), Find(s.log, slot), Entry(s.log, slot);
            && Distinct(log) && i < |log| && log[i].slot == slot && Find(log, slot) == i
            && log[i].group == GroupAt(s.log, slot) && log[i].value == value && log[i].spelling == spelling
            && log[i].original == (if e.Some? then e.value.original else s.names[slot])
            && Entry(log, x) == if x == slot then Some(log[i]) else Entry(s.log, x)
  {
    var ready, i := Prepared(s.log, slot, s.names[slot]), Find(s.log, slot);
    PreparedEntries(s.log, slot, s.names[slot], slot);
    PreparedEntries(s.log, slot, s.names[slot], x);
    UpdatedEntries(ready, i, ready[i].(value := value, spelling := spelling), x);
    UpdatedEntries(ready, i, ready[i].(value := value, spelling := spelling), slot);
  }

  /** Whether settling drops the record, or the whole group, of a slot. */
  predicate Dropped(log: Log, i: nat, spelling: Option<string>, x: nat)
    requires i < |log|
  {
    var e, own := Entry(log, x), log[i];
    if spelling.None? && own.group == 0 && own.original == own.value then x == own.slot
    else own.group != 0 && Restored(log, own.group) && e.Some? && e.value.group == own.group
  }

  lemma SettledEntries(log: Log, i: nat, spelling: Option<string>, x: nat)
    requires Distinct(log) && i < |log|
    ensures Distinct(Settled(log, i, spelling))
    ensures Entry(Settled(log, i, spelling), x) == if Dropped(log, i, spelling, x) then None else Entry(log, x)
  {
    EntryAt(log, i);
    RemovedIsKeep(log, i);
    KeepEntries(log, {i}, x);
    KeepEntries(log, GroupPositions(log, log[i].group), x);
  }

  /** What a committed rename does to every slot's record. */
  lemma RenamedEntries(s: State, slot: nat, value: string, spelling: Option<string>, x: nat)
    requires slot in s.names && Distinct(s.log)
    ensures var log, i := LogAfter(s, slot, value, spelling), Find(s.log, slot);
            var after := Renamed(s, slot, value, spelling, Ok).0;
            && Distinct(after.log) && i < |log| && log[i].slot == slot
            && Entry(after.log, x) == if Dropped(log, i, spelling, x) then None
                                      else if x == slot then Some(log[i]) else Entry(s.log, x)
  {
    LogAfterEntries(s, slot, value, spelling, x);
    SettledEntries(LogAfter(s, slot, value, spelling), Find(s.log, slot), spelling, x);
  }

  lemma RenameTracks(parse: map<nat, string>, s: State, slot: nat, value: string, spelling: Option<string>)
    requires Tracks(parse, s) && slot in s.names
    requires s.names[slot] != value || spelling.Some?
    ensures Tracks(parse, Renamed(s, slot, value, spelling, Ok).0)
  {
    var after := Renamed(s, slot, value, spelling, Ok).0;
    RenamedEntries(s, slot, value, spelling, 0);
    assert after.names.Keys == parse.Keys;
    forall x: nat
      ensures Entry(after.log, x).Some? ==> x in parse
      ensures x in parse ==> Tracked(parse, after, x)
    {
      RenameTracksSlot(parse, s, slot, value, spelling, x);
    }
  }

  lemma RenameTracksSlot(parse: map<nat, string>, s: State, slot: nat, value: string, spelling: Option<string>, x: nat)
    requires Tracks(parse, s) && slot in s.names
    requires s.names[slot] != value || spelling.Some?
    ensures var after := Renamed(s, slot, value, spelling, Ok).0;
            && (Entry(after.log, x).Some? ==> x in parse)
            && (x in parse ==> x in after.names && Tracked(parse, after, x))
  {
    var log, i := LogAfter(s, slot, value, spelling), Find(s.log, slot);
    RenamedEntries(s, slot, value, spelling, x);
    LogAfterEntries(s, slot, value, spelling, x);
    if x in parse {
      assert Tracked(parse, s, x);
    }
    assert Tracked(parse, s, slot);
  }

  lemma RenameGroups(triples: map<nat, Triple>, s: State, slot: nat, value: string, spelling: Option<string>)
    requires Distinct(s.log) && Grouped(triples, s.log) && Known(triples) && slot in s.names
    ensures Grouped(triples, Renamed(s, slot, value, spelling, Ok).0.log)
  {
    var after := Renamed(s, slot, value, spelling, Ok).0;
    var log, g := LogAfter(s, slot, value, spelling), GroupAt(s.log, slot);
    var gone := g != 0 && Restored(log, g);
    forall x: nat
      ensures GroupAt(after.log, x) == if gone && GroupAt(s.log, x) == g then 0 else GroupAt(s.log, x)
    {
      RenamedEntries(s, slot, value, spelling, x);
      LogAfterEntries(s, slot, value, spelling, x);
    }
    Regrouped(triples, s.log, after.log, if gone then {g} else {});
  }

  /** Dissolving whole groups keeps the others complete. */
  lemma Regrouped(triples: map<nat, Triple>, before: Log, after: Log, gone: set<nat>)
    requires Grouped(triples, before) && Known(triples)
    requires forall x: nat :: GroupAt(after, x) == if GroupAt(before, x) in gone then 0 else GroupAt(before, x)
    ensures Grouped(triples, after)
  {
    hide GroupAt;
  }

  // ----- renaming a relation

  lemma PathEntries(log: Log, names: map<nat, string>, t: Triple, x: nat)
    requires SlotsNamed(names, t) && Distinct(log)
    ensures var after := PreparedPath(log, names, t, 3);
            && Distinct(after)
            && Entry(after, x) == if Entry(log, x).Some? || x !in t then Entry(log, x)
                                  else Some(Mutation(x, names[x], names[x], None, 0))
  {
    PathSteps(log, names, t);
    var a, b := PreparedPath(log, names, t, 1), PreparedPath(log, names, t, 2);
    PreparedEntries(log, t[0], names[t[0]], x);
    PreparedEntries(a, t[1], names[t[1]], x);
    PreparedEntries(b, t[2], names[t[2]], x);
  }

  lemma PathGroups(triples: map<nat, Triple>, log: Log, names: map<nat, string>, t: Triple)
    requires SlotsNamed(names, t) && Distinct(log) && Grouped(triples, log) && Known(triples)
    requires t[0] in triples && triples[t[0]] == t
    ensures var after := PreparedPath(log, names, t, 3);
            && Distinct(after) && (forall x: nat :: GroupAt(after, x) == GroupAt(log, x))
            && CommonGroup(after, t, 3) == Some(GroupAt(log, t[0]))
  {
    var after := PreparedPath(log, names, t, 3);
    PathEntries(log, names, t, 0);
    forall x: nat
      ensures GroupAt(after, x) == GroupAt(log, x)
    {
      PathEntries(log, names, t, x);
    }
    var g := GroupAt(log, t[0]);
    assert GroupAt(after, t[0]) == g && GroupAt(after, t[1]) == g && GroupAt(after, t[2]) == g by {
      assert t[1] in t && t[2] in t;
    }
    OneGroup(after, t, g);
  }

  lemma OneGroup(log: Log, t: Triple, g: nat)
    requires GroupAt(log, t[0]) == GroupAt(log, t[1]) == GroupAt(log, t[2]) == g
    ensures CommonGroup(log, t, 3) == Some(g)
  {
    assert CommonGroup(log, t, 1) == Some(g);
    assert CommonGroup(log, t, 2) == Some(g);
  }

  lemma AssignedEntries(log: Log, names: map<nat, string>, t: Triple, p: Path, l: PathLimits, group: nat, x: nat)
    requires IsPath(p) && AreLimits(l) && SlotsNamed(names, t) && Distinct(log)
    ensures var after, e := AssignedAll(log, names, t, p, l, group), Entry(log, x);
            && Distinct(after)
            && Entry(after, x) == if e.None? then None else Some(Assigned(e.value, names, t, p, l, group))
  {
    SameSlots(log, AssignedAll(log, names, t, p, l, group), x);
  }

  lemma TripleEntries(log: Log, t: Triple, x: nat)
    requires Distinct(log) && forall k | 0 <= k < 3 :: Entry(log, t[k]).Some?
    ensures var after := Keep(log, TriplePositions(log, t), |log|);
            Distinct(after) && Entry(after, x) == if x in t then None else Entry(log, x)
  {
    KeepEntries(log, TriplePositions(log, t), x);
    TriplePosition(log, t, x);
  }

  lemma TriplePosition(log: Log, t: Triple, x: nat)
    requires forall k | 0 <= k < 3 :: Entry(log, t[k]).Some?
    ensures Find(log, x) in TriplePositions(log, t) <==> x in t
  {
    var i, p := Find(log, x), TriplePositions(log, t);
    assert forall d | d in p :: d == Find(log, t[0]) || d == Find(log, t[1]) || d == Find(log, t[2]);
    if i in p {
      assert log[i].slot == x;
    }
  }

  function NewValue(t: Triple, p: Path, x: nat): string
    requires IsPath(p) && x in t
  {
    if x == t[0] then p.values[0] else if x == t[1] then p.values[1] else p.values[2]
  }

  lemma NamesAfterPath(names: map<nat, string>, t: Triple, p: Path)
    requires IsPath(p) && SlotsNamed(names, t)
    ensures var after := NamesAfter(names, t, p, 3);
            after.Keys == names.Keys
            && forall x | x in names :: after[x] == if x in t then NewValue(t, p, x) else names[x]
  {
    var a, b := NamesAfter(names, t, p, 1), NamesAfter(names, t, p, 2);
    assert NamesAfter(names, t, p, 0) == names;
    assert a == names[t[0] := p.values[0]];
    assert b == a[t[1] := p.values[1]];
  }

  /** The records a relation's new path leaves behind. */
  lemma InstalledEntries(log: Log, names: map<nat, string>, t: Triple, p: Path, l: PathLimits, group: nat, x: nat)
    requires IsPath(p) && AreLimits(l) && SlotsNamed(names, t) && Distinct(log)
    requires forall k | 0 <= k < 3 :: Entry(log, t[k]).Some?
    ensures var after, e := Installed(log, names, t, p, l, group), Entry(log, x);
            && Distinct(after)
            && (x !in t ==> Entry(after, x) == e)
            && (x in t && WhollyRestored(log, names, t, p, l)
                ==> Entry(after, x) == None && e.value.original == NewValue(t, p, x))
            && (x in t && !WhollyRestored(log, names, t, p, l) ==>
                  && Entry(after, x).Some? && Entry(after, x).value.original == e.value.original
                  && Entry(after, x).value.value == NewValue(t, p, x) && Entry(after, x).value.group == group)
  {
    if x in t {
      var k :| 0 <= k < 3 && t[k] == x;
    }
    if WhollyRestored(log, names, t, p, l) {
      TripleEntries(log, t, x);
    } else {
      AssignedEntries(log, names, t, p, l, group, x);
    }
  }

  lemma ReplaceTracksSlot(parse: map<nat, string>, s: State, t: Triple, p: Path, l: PathLimits, group: nat, x: nat)
    requires Tracks(parse, s) && IsPath(p) && AreLimits(l) && SlotsNamed(s.names, t) && group != 0
    requires forall k | 0 <= k < 3 :: Entry(PreparedPath(s.log, s.names, t, 3), t[k]).Some?
    ensures var log := PreparedPath(s.log, s.names, t, 3);
            var after := State(NamesAfter(s.names, t, p, 3), Installed(log, s.names, t, p, l, group), s.failed);
            && Distinct(after.log)
            && (Entry(after.log, x).Some? ==> x in parse)
            && (x in parse ==> x in after.names && Tracked(parse, after, x))
  {
    hide NamesAfter, Installed, PreparedPath, WhollyRestored, Entry, Changes, Spelled, NewValue, Assigned;
    PathEntries(s.log, s.names, t, x);
    NamesAfterPath(s.names, t, p);
    InstalledEntries(PreparedPath(s.log, s.names, t, 3), s.names, t, p, l, group, x);
    assert Entry(s.log, x).Some? ==> x in parse;
    assert x in t ==> x in parse;
    if x in parse {
      assert Tracked(parse, s, x);
    }
  }

  lemma ReplaceTracks(parse: map<nat, string>, s: State, t: Triple, p: Path, l: PathLimits, group: nat)
    requires Tracks(parse, s) && IsPath(p) && AreLimits(l) && SlotsNamed(s.names, t) && group != 0
    ensures var log := PreparedPath(s.log, s.names, t, 3);
            Tracks(parse, State(NamesAfter(s.names, t, p, 3), Installed(log, s.names, t, p, l, group), s.failed))
  {
    NamesAfterPath(s.names, t, p);
    forall k | 0 <= k < 3
      ensures Entry(PreparedPath(s.log, s.names, t, 3), t[k]).Some?
    {
      PathEntries(s.log, s.names, t, t[k]);
    }
    var after := State(NamesAfter(s.names, t, p, 3), Installed(PreparedPath(s.log, s.names, t, 3), s.names, t, p, l,
                                                               group),
                       s.failed);
    hide NamesAfter, Installed, PreparedPath, Entry;
    forall x: nat
      ensures Distinct(after.log)
      ensures Entry(after.log, x).Some? ==> x in parse
      ensures x in parse ==> Tracked(parse, after, x)
    {
      ReplaceTracksSlot(parse, s, t, p, l, group, x);
    }
  }

  lemma ReplaceGroups(triples: map<nat, Triple>, s: State, t: Triple, p: Path, l: PathLimits, group: nat)
    requires Distinct(s.log) && Grouped(triples, s.log) && Known(triples)
    requires t[0] in triples && triples[t[0]] == t
    requires IsPath(p) && AreLimits(l) && SlotsNamed(s.names, t) && group != 0
    requires GroupAt(s.log, t[0]) != 0 ==> group == GroupAt(s.log, t[0])
    requires GroupAt(s.log, t[0]) == 0 ==> forall x: nat :: GroupAt(s.log, x) != group
    ensures Grouped(triples, Installed(PreparedPath(s.log, s.names, t, 3), s.names, t, p, l, group))
  {
    var log := PreparedPath(s.log, s.names, t, 3);
    var after := Installed(log, s.names, t, p, l, group);
    PathGroups(triples, s.log, s.names, t);
    forall k | 0 <= k < 3
      ensures Entry(log, t[k]).Some?
    {
      PathEntries(s.log, s.names, t, t[k]);
    }
    var g := if WhollyRestored(log, s.names, t, p, l) then 0 else group;
    forall x: nat
      ensures GroupAt(after, x) == if x in t then g else GroupAt(s.log, x)
    {
      assert GroupAt(log, x) == GroupAt(s.log, x);
      InstalledEntries(log, s.names, t, p, l, group, x);
    }
    OneTripleRegrouped(triples, s.log, after, t, g);
  }

  lemma OneTripleRegrouped(triples: map<nat, Triple>, before: Log, after: Log, t: Triple, g: nat)
    requires Grouped(triples, before) && Known(triples) && t[0] in triples && triples[t[0]] == t
    requires forall x: nat :: GroupAt(after, x) == if x in t then g else GroupAt(before, x)
    requires g != 0 ==> forall x: nat | x !in t :: GroupAt(before, x) != g
    ensures Grouped(triples, after)
  {
    hide GroupAt;
    assert forall x | x in t :: x in triples && triples[x] == t;
    forall x: nat, m: nat | x in triples && m in triples[x]
      ensures GroupAt(after, m) == GroupAt(after, x)
    {
      assert triples[m] == triples[x];
      assert x in t <==> triples[x] == t;
    }
  }

  // ----- whole runs

  datatype Call =
    | NameCall(slot: Option<nat>, value: string, spelling: Option<string>, nameLimits: NameLimits)
    | RelationCall(relation: Triple, path: Path, pathLimits: PathLimits)

  /** A call addresses slots of the statement, and a relation by its own slots. */
  ghost predicate Addressed(parse: map<nat, string>, triples: map<nat, Triple>, c: Call) {
    match c
    case NameCall(slot, _, _, _) => slot.Some? ==> slot.value in parse
    case RelationCall(t, p, l) =>
      && IsPath(p) && AreLimits(l) && SlotsNamed(parse, t) && t[0] in triples && triples[t[0]] == t
  }

  ghost function Step(parse: map<nat, string>, triples: map<nat, Triple>, s: State, c: Call): (r: (State, Status))
    requires s.names.Keys == parse.Keys && Addressed(parse, triples, c)
    ensures r.0.names.Keys == parse.Keys
  {
    match c
    case NameCall(slot, value, spelling, limits) => AfterSetName(s, slot, value, spelling, limits)
    case RelationCall(t, p, l) => AfterReplace(s, t, p, l)
  }

  /** The state after a run of calls; a poisoned handle takes no more. */
  ghost function Run(parse: map<nat, string>, triples: map<nat, Triple>, s: State, calls: seq<Call>): (r: State)
    requires s.names.Keys == parse.Keys && forall c | c in calls :: Addressed(parse, triples, c)
    ensures r.names.Keys == parse.Keys
    decreases |calls|
  {
    if calls == [] || s.failed then s else Run(parse, triples, Step(parse, triples, s, calls[0]).0, calls[1..])
  }

  lemma NameOutcome(s: State, slot: Option<nat>, value: string, spelling: Option<string>, limits: NameLimits)
    requires slot.Some? ==> slot.value in s.names
    ensures var after := AfterSetName(s, slot, value, spelling, limits).0;
            || after == s || after.failed
            || (slot.Some? && (s.names[slot.value] != value || spelling.Some?)
                && after == Renamed(s, slot.value, value, spelling, Ok).0)
  {
    hide Settled, Prepared;
  }

  lemma NameKeeps(parse: map<nat, string>, triples: map<nat, Triple>, s: State, slot: Option<nat>, value: string,
                  spelling: Option<string>, limits: NameLimits)
    requires Known(triples) && Tracks(parse, s) && Grouped(triples, s.log) && (slot.Some? ==> slot.value in parse)
    ensures Sound(parse, triples, AfterSetName(s, slot, value, spelling, limits).0)
  {
    NameOutcome(s, slot, value, spelling, limits);
    if slot.Some? && (s.names[slot.value] != value || spelling.Some?) {
      RenameTracks(parse, s, slot.value, value, spelling);
      RenameGroups(triples, s, slot.value, value, spelling);
    }
    hide AfterSetName, Renamed, Tracks, Grouped;
  }

  lemma ReplaceOutcome(s: State, t: Triple, p: Path, l: PathLimits, common: nat)
    requires IsPath(p) && AreLimits(l) && SlotsNamed(s.names, t)
    requires CommonGroup(PreparedPath(s.log, s.names, t, 3), t, 3) == Some(common)
    ensures var log, r := PreparedPath(s.log, s.names, t, 3), AfterReplace(s, t, p, l);
            var group := if common == 0 then MaxGroup(log, |log|) + 1 else common;
            && (r.0 == s || r.0 == State(NamesAfter(s.names, t, p, 3), Installed(log, s.names, t, p, l, group),
                                         s.failed))
            && (l.planning != InternalError ==> r.1 != InternalError)
  {
    hide PreparedPath, CommonGroup, MaxGroup, NamesAfter, Installed, Changes, LogMemoryLasts;
  }

  lemma DistinctLog(parse: map<nat, string>, s: State)
    requires Tracks(parse, s)
    ensures Distinct(s.log) && s.names.Keys == parse.Keys
  {
  }

  lemma GroupBound(log: Log, x: nat)
    ensures GroupAt(log, x) <= MaxGroup(log, |log|)
  {
  }

  lemma ReplaceKeeps(parse: map<nat, string>, triples: map<nat, Triple>, s: State, t: Triple, p: Path, l: PathLimits)
    requires Known(triples) && Tracks(parse, s) && Grouped(triples, s.log)
    requires IsPath(p) && AreLimits(l) && SlotsNamed(parse, t) && t[0] in triples && triples[t[0]] == t
    ensures Sound(parse, triples, AfterReplace(s, t, p, l).0)
    ensures l.planning != InternalError ==> AfterReplace(s, t, p, l).1 != InternalError
  {
    hide AfterReplace, Installed, PreparedPath, NamesAfter, CommonGroup, GroupAt, Known;
    var log := PreparedPath(s.log, s.names, t, 3);
    DistinctLog(parse, s);
    PathGroups(triples, s.log, s.names, t);
    var common, top := GroupAt(s.log, t[0]), MaxGroup(log, |log|);
    var group := if common == 0 then top + 1 else common;
    ReplaceOutcome(s, t, p, l, common);
    forall x: nat
      ensures GroupAt(s.log, x) <= top
    {
      assert GroupAt(log, x) == GroupAt(s.log, x);
      GroupBound(log, x);
    }
    ReplaceTracks(parse, s, t, p, l, group);
    ReplaceGroups(triples, s, t, p, l, group);
  }

  /** The invariant holds after any run of successful and failed calls of either
      kind, for as long as no commit has failed. */
  lemma {:induction false} RunKeeps(parse: map<nat, string>, triples: map<nat, Triple>, s: State, calls: seq<Call>)
    requires Known(triples) && Sound(parse, triples, s) && s.names.Keys == parse.Keys
    requires forall c | c in calls :: Addressed(parse, triples, c)
    ensures Sound(parse, triples, Run(parse, triples, s, calls))
    decreases |calls|
  {
    if calls != [] && !s.failed {
      assert calls[0] in calls;
      match calls[0] {
        case NameCall(slot, value, spelling, limits) => NameKeeps(parse, triples, s, slot, value, spelling, limits);
        case RelationCall(t, p, l) => ReplaceKeeps(parse, triples, s, t, p, l);
      }
      RunKeeps(parse, triples, Step(parse, triples, s, calls[0]).0, calls[1..]);
    }
  }

  function Fresh(parse: map<nat, string>): State {
    State(parse, [], false)
  }

  lemma FreshIsSound(parse: map<nat, string>, triples: map<nat, Triple>)
    ensures Sound(parse, triples, Fresh(parse))
  {
  }

  /** Grouped records enter and leave the log as complete relations: after any run
      either all three slots of a relation are logged under one group of their own,
      or none of them is grouped. */
  lemma RelationsAreLoggedWhole(parse: map<nat, string>, triples: map<nat, Triple>, calls: seq<Call>, x: nat, y: nat)
    requires Known(triples) && forall c | c in calls :: Addressed(parse, triples, c)
    requires !Run(parse, triples, Fresh(parse), calls).failed
    ensures var log := Run(parse, triples, Fresh(parse), calls).log;
            && (GroupAt(log, x) != 0 ==> x in triples)
            && (x in triples && y in triples[x] ==> GroupAt(log, y) == GroupAt(log, x))
            && ((GroupAt(log, x) != 0 && GroupAt(log, y) == GroupAt(log, x))
                  ==> x in triples && y in triples && triples[y] == triples[x])
  {
    FreshIsSound(parse, triples);
    RunKeeps(parse, triples, Fresh(parse), calls);
  }

  // ----- plain renames

  predicate Plain(c: Call) {
    c.NameCall? && c.spelling.None?
  }

  ghost predicate AllPlain(log: Log) {
    forall x: nat :: Entry(log, x).Some? ==> Entry(log, x).value.group == 0 && Entry(log, x).value.spelling.None?
  }

  lemma PlainStep(s: State, slot: Option<nat>, value: string, limits: NameLimits)
    requires slot.Some? ==> slot.value in s.names
    requires Distinct(s.log) && AllPlain(s.log)
    ensures var r := AfterSetName(s, slot, value, None, limits).0;
            !r.failed ==> AllPlain(r.log)
  {
    NameOutcome(s, slot, value, None, limits);
    if slot.Some? {
      forall x: nat
        ensures var e := Entry(Renamed(s, slot.value, value, None, Ok).0.log, x);
                e.Some? ==> e.value.group == 0 && e.value.spelling.None?
      {
        RenamedEntries(s, slot.value, value, None, x);
        LogAfterEntries(s, slot.value, value, None, x);
      }
    }
  }

  lemma {:induction false} PlainRunStaysPlain(parse: map<nat, string>, s: State, calls: seq<Call>)
    requires Tracks(parse, s) && AllPlain(s.log) && Grouped(map[], s.log)
    requires forall c | c in calls :: Addressed(parse, map[], c) && Plain(c)
    ensures var r := Run(parse, map[], s, calls); !r.failed ==> AllPlain(r.log)
    decreases |calls|
  {
    if calls != [] && !s.failed {
      var c := calls[0];
      assert c in calls;
      PlainStep(s, c.slot, c.value, c.nameLimits);
      NameKeeps(parse, map[], s, c.slot, c.value, c.spelling, c.nameLimits);
      var next := Step(parse, map[], s, c).0;
      if !next.failed {
        PlainRunStaysPlain(parse, next, calls[1..]);
      }
    }
  }

  /** The log is minimal: after any run of renames without a spelling, a slot is
      logged, once and with its parse-time name, exactly if its name differs from
      that name. */
  lemma PlainLogIsTheDifference(parse: map<nat, string>, calls: seq<Call>, x: nat)
    requires forall c | c in calls :: Addressed(parse, map[], c) && Plain(c)
    requires x in parse && !Run(parse, map[], Fresh(parse), calls).failed
    ensures var r := Run(parse, map[], Fresh(parse), calls);
            && Distinct(r.log)
            && (Entry(r.log, x).Some? <==> r.names[x] != parse[x])
            && (Entry(r.log, x).Some? ==> Entry(r.log, x).value == Mutation(x, parse[x], r.names[x], None, 0))
  {
    FreshIsSound(parse, map[]);
    RunKeeps(parse, map[], Fresh(parse), calls);
    PlainRunStaysPlain(parse, Fresh(parse), calls);
    assert Tracked(parse, Run(parse, map[], Fresh(parse), calls), x);
  }

  /** Undoing: once every name is back, a plain run leaves an empty log. */
  lemma PlainUndoEmptiesTheLog(parse: map<nat, string>, calls: seq<Call>)
    requires forall c | c in calls :: Addressed(parse, map[], c) && Plain(c)
    requires var r := Run(parse, map[], Fresh(parse), calls); !r.failed && r.names == parse
    ensures Run(parse, map[], Fresh(parse), calls).log == []
  {
    var r := Run(parse, map[], Fresh(parse), calls);
    if r.log != [] {
      var x := r.log[0].slot;
      FreshIsSound(parse, map[]);
      RunKeeps(parse, map[], Fresh(parse), calls);
      EntryAt(r.log, 0);
      PlainLogIsTheDifference(parse, calls, x);
      assert false;
    }
  }
}

/** Renaming single identifiers and whole relation paths, and what either does to
    the log of renamed slots. */
module Renames {
  import opened Wrappers
  import opened ChangeLog

  /** The identifier slots with their current strings (an absent string reads as
      empty), the log, and whether a commit failed and poisoned the handle. */
  datatype State = State(names: map<nat, string>, log: Log, failed: bool)

  // ----- renaming one identifier

  /** What one call meets outside the log: the dialect's refusal, failing
      allocations, the staging of an alias spelling, and the commit. */
  datatype NameLimits = NameLimits(refused: bool, spellingMemory: bool, logMemory: bool, staging: Status,
                                   valueMemory: bool, commit: Status)

  predicate Restored(log: Log, group: nat) {
    forall i | 0 <= i < |log| :: log[i].group == group ==> log[i].value == log[i].original
  }

  function GroupPositions(log: Log, group: nat): set<nat> {
    set i | 0 <= i < |log| && log[i].group == group
  }

  /** The log once a rename of the record at i is committed. */
  function Settled(log: Log, i: nat, spelling: Option<string>): Log
    requires i < |log|
  {
    var e := log[i];
    if spelling.None? && e.group == 0 && e.original == e.value then Removed(log, i)
    else if e.group != 0 && Restored(log, e.group) then Keep(log, GroupPositions(log, e.group), |log|)
    else log
  }

  function AfterSetName(s: State, slot: Option<nat>, value: string, spelling: Option<string>, limits: NameLimits)
    : (State, Status)
    requires slot.Some? ==> slot.value in s.names
  {
    if value == "" || spelling == Some("") || slot.None? then (s, InvalidArgument)
    else
      var changed := s.names[slot.value] != value;
      if !changed && spelling.None? then (s, Ok)
      else if limits.refused then (s, Unsupported)
      else if spelling.Some? && !limits.spellingMemory then (s, NoMemory)
      else if Entry(s.log, slot.value).None? && !limits.logMemory then (s, NoMemory)
      else
        var ready := Prepared(s.log, slot.value, s.names[slot.value]);
        var i := Find(s.log, slot.value);
        if !changed && ready[i].spelling == spelling then (s, Ok)
        else if limits.staging != Ok then (s, limits.staging)
        else if changed && !limits.valueMemory then (s, NoMemory)
        else Renamed(s, slot.value, value, spelling, limits.commit)
  }

  function Renamed(s: State, slot: nat, value: string, spelling: Option<string>, commit: Status): (State, Status)
    requires slot in s.names
  {
    var ready := Prepared(s.log, slot, s.names[slot]);
    var i, names := Find(s.log, slot), s.names[slot := value];
    var log := ready[i := ready[i].(value := value, spelling := spelling)];
    if commit == Ok then (State(names, Settled(log, i, spelling), s.failed), Ok)
    else if i == |s.log| then (State(names, s.log, true), commit)
    else (State(names, log[i := log[i].(spelling := ready[i].spelling)], true), commit)
  }

  // ----- renaming a relation path

  /** The slots of a relation's catalog, schema and name. */
  type Triple = t: seq<nat> | |t| == 3 && t[0] != t[1] && t[0] != t[2] && t[1] != t[2]
    witness [0, 1, 2]

  /** Three values with their requested spellings. */
  datatype Path = Path(values: seq<string>, spellings: seq<Option<string>>)

  predicate IsPath(p: Path) {
    |p.values| == 3 && |p.spellings| == 3
  }

  /** `borrowed` is the spelling found for a value that is taken over from another
      slot of the same relation, and `planning` the outcome of looking for them. */
  datatype PathLimits = PathLimits(planning: Status, borrowed: seq<Option<string>>, logMemory: seq<bool>,
                                   valueMemory: bool)

  predicate AreLimits(l: PathLimits) {
    |l.borrowed| == 3 && |l.logMemory| == 3
  }

  predicate Changes(names: map<nat, string>, t: Triple, p: Path, k: nat)
    requires IsPath(p) && k < 3 && t[k] in names
  {
    names[t[k]] != p.values[k] || p.spellings[k].Some?
  }

  function Spelled(names: map<nat, string>, t: Triple, p: Path, l: PathLimits, k: nat): Option<string>
    requires IsPath(p) && AreLimits(l) && k < 3 && t[k] in names
  {
    if !Changes(names, t, p, k) || p.values[k] == "" then None
    else if p.spellings[k].Some? then p.spellings[k]
    else l.borrowed[k]
  }

  predicate SlotsNamed(names: map<nat, string>, t: Triple) {
    t[0] in names && t[1] in names && t[2] in names
  }

  /** The log with the first k slots of the relation prepared. */
  function PreparedPath(log: Log, names: map<nat, string>, t: Triple, k: nat): Log
    requires k <= 3 && SlotsNamed(names, t)
  {
    if k == 0 then log else Prepared(PreparedPath(log, names, t, k - 1), t[k - 1], names[t[k - 1]])
  }

  predicate LogMemoryLasts(log: Log, t: Triple, l: PathLimits, k: nat)
    requires AreLimits(l) && k <= 3
  {
    forall j | 0 <= j < k :: Entry(log, t[j]).None? ==> l.logMemory[j]
  }

  function GroupAt(log: Log, slot: nat): nat {
    var e := Entry(log, slot);
    if e.Some? then e.value.group else 0
  }

  /** The one group of the relation's records, zero if they have none yet. */
  function CommonGroup(log: Log, t: Triple, k: nat): (g: Option<nat>)
    requires k <= 3
  {
    if k == 0 then Some(0)
    else
      var g, candidate := CommonGroup(log, t, k - 1), GroupAt(log, t[k - 1]);
      if g.None? || candidate == 0 then g
      else if g.value != 0 && g.value != candidate then None
      else Some(candidate)
  }

  function MaxGroup(log: Log, n: nat): (g: nat)
    requires n <= |log|
    ensures forall i | 0 <= i < n :: log[i].group <= g
  {
    if n == 0 then 0
    else
      var g := MaxGroup(log, n - 1);
      if log[n - 1].group > g then log[n - 1].group else g
  }

  const SIZE_MAX: nat := 0xFFFF_FFFF_FFFF_FFFF

  /** A slot's record after the relation got its new path. */
  function Assigned(e: Mutation, names: map<nat, string>, t: Triple, p: Path, l: PathLimits, group: nat): Mutation
    requires IsPath(p) && AreLimits(l) && SlotsNamed(names, t)
  {
    if e.slot !in t then e
    else
      var k := if e.slot == t[0] then 0 else if e.slot == t[1] then 1 else 2;
      e.(value := p.values[k], group := group,
         spelling := if Changes(names, t, p, k) then Spelled(names, t, p, l, k) else e.spelling)
  }

  function AssignedAll(log: Log, names: map<nat, string>, t: Triple, p: Path, l: PathLimits, group: nat): (r: Log)
    requires IsPath(p) && AreLimits(l) && SlotsNamed(names, t)
    ensures |r| == |log| && forall i | 0 <= i < |log| :: r[i] == Assigned(log[i], names, t, p, l, group)
  {
    seq(|log|, i requires 0 <= i < |log| => Assigned(log[i], names, t, p, l, group))
  }

  function NamesAfter(names: map<nat, string>, t: Triple, p: Path, k: nat): (r: map<nat, string>)
    requires IsPath(p) && k <= 3
    ensures forall j | k <= j < 3 :: t[j] in names ==> t[j] in r && r[t[j]] == names[t[j]]
    ensures SlotsNamed(names, t) ==> r.Keys == names.Keys
  {
    if k == 0 then names else NamesAfter(names, t, p, k - 1)[t[k - 1] := p.values[k - 1]]
  }

  predicate WhollyRestored(log: Log, names: map<nat, string>, t: Triple, p: Path, l: PathLimits)
    requires IsPath(p) && AreLimits(l) && SlotsNamed(names, t)
  {
    SlotRestored(log, names, t, p, l, 0) && SlotRestored(log, names, t, p, l, 1) && SlotRestored(log, names, t, p, l, 2)
  }

  predicate SlotRestored(log: Log, names: map<nat, string>, t: Triple, p: Path, l: PathLimits, k: nat)
    requires IsPath(p) && AreLimits(l) && SlotsNamed(names, t) && k < 3
  {
    var i := Find(log, t[k]);
    i < |log| && log[i].original == p.values[k] && Spelled(names, t, p, l, k).None?
  }

  function TriplePositions(log: Log, t: Triple): set<nat> {
    {Find(log, t[0]), Find(log, t[1]), Find(log, t[2])}
  }

  function AfterReplace(s: State, t: Triple, p: Path, l: PathLimits): (State, Status)
    requires IsPath(p) && AreLimits(l) && SlotsNamed(s.names, t)
  {
    if !Changes(s.names, t, p, 0) && !Changes(s.names, t, p, 1) && !Changes(s.names, t, p, 2) then (s, Ok)
    else if l.planning != Ok then (s, l.planning)
    else if !LogMemoryLasts(s.log, t, l, 3) then (s, NoMemory)
    else AfterPlace(s, PreparedPath(s.log, s.names, t, 3), t, p, l)
  }

  /** What happens once the three records are prepared in `log`. */
  function AfterPlace(s: State, log: Log, t: Triple, p: Path, l: PathLimits): (State, Status)
    requires IsPath(p) && AreLimits(l) && SlotsNamed(s.names, t)
  {
    var common, top := CommonGroup(log, t, 3), MaxGroup(log, |log|);
    if common.None? then (s, InternalError)
    else if common.value == 0 && top >= SIZE_MAX then (s, ResourceLimit)
    else if !l.valueMemory then (s, NoMemory)
    else
      var group := if common.value == 0 then top + 1 else common.value;
      (State(NamesAfter(s.names, t, p, 3), Installed(log, s.names, t, p, l, group), s.failed), Ok)
  }

  function Installed(log: Log, names: map<nat, string>, t: Triple, p: Path, l: PathLimits, group: nat): Log
    requires IsPath(p) && AreLimits(l) && SlotsNamed(names, t)
  {
    if WhollyRestored(log, names, t, p, l) then Keep(log, TriplePositions(log, t), |log|)
    else AssignedAll(log, names, t, p, l, group)
  }

  // ----- the handle

  class Handle {
    var names: map<nat, string>
    var log: Log
    var failed: bool

    constructor (names: map<nat, string>)
      ensures Current() == State(names, [], false)
    {
      this.names, log, failed := names, [], false;
    }

    function Current(): State
      reads this
    {
      State(names, log, failed)
    }

    /** Finds or appends the record of a slot. */
    method Prepare(slot: nat, memory: bool) returns (status: Status, index: nat, created: bool)
      requires slot in names
      modifies this`log
      ensures status == (if Entry(old(log), slot).None? && !memory then NoMemory else Ok)
      ensures status != Ok ==> log == old(log) && !created
      ensures status == Ok ==> && log == Prepared(old(log), slot, names[slot])
                               && index == Find(old(log), slot) < |log|
                               && created == (index == |old(log)|)
    {
      index := Find(log, slot);
      if index < |log| {
        return Ok, index, false;
      }
      if !memory {
        return NoMemory, 0, false;
      }
      log := log + [Mutation(slot, names[slot], names[slot], None, 0)];
      return Ok, index, true;
    }

    /** Takes the flagged records out, highest position first. */
    method RemovePrepared(indices: seq<nat>, flags: seq<bool>)
      requires |indices| <= |flags|
      requires forall k | 0 <= k < |indices| :: flags[k] ==> indices[k] < |log|
      requires forall j, k | 0 <= j < k < |indices| :: flags[j] && flags[k] ==> indices[j] != indices[k]
      modifies this`log
      ensures log == Keep(old(log), Flagged(indices, flags), |old(log)|)
    {
      var remove := flags;
      while true
        invariant |remove| == |flags|
        invariant forall k | 0 <= k < |indices| :: remove[k] ==> flags[k] && indices[k] < |log|
        invariant Keep(log, Flagged(indices, remove), |log|) == Keep(old(log), Flagged(indices, flags), |old(log)|)
        decreases Flagged(indices, remove)
      {
        var selected: nat := |indices|;
        for i := 0 to |indices|
          invariant selected == |indices| || (selected < i && remove[selected])
          invariant forall k | 0 <= k < i :: remove[k] ==> selected < |indices| && indices[k] <= indices[selected]
        {
          if remove[i] && (selected == |indices| || indices[i] > indices[selected]) {
            selected := i;
          }
        }
        if selected == |indices| {
          assert Flagged(indices, remove) == {};
          KeepAll(log, {}, |log|);
          return;
        }
        var top := indices[selected];
        ghost var before := Flagged(indices, remove);
        KeepRemoved(log, before, top, |log|);
        log := Removed(log, top);
        remove := remove[selected := false];
        assert Flagged(indices, remove) == before - {top};
      }
    }

    /** Renames one identifier.  Nothing but a failing commit leaves a trace of a
        call that fails. */
    method SetName(slot: Option<nat>, value: string, spelling: Option<string>, limits: NameLimits)
      returns (status: Status)
      requires slot.Some? ==> slot.value in names
      modifies this
      ensures (Current(), status) == AfterSetName(old(Current()), slot, value, spelling, limits)
    {
      if value == "" || spelling == Some("") || slot.None? {
        return InvalidArgument;
      }
      var valueChanged := names[slot.value] != value;
      if !valueChanged && spelling.None? {
        return Ok;
      }
      if limits.refused {
        return Unsupported;
      }
      if spelling.Some? && !limits.spellingMemory {
        return NoMemory;
      }
      var index, created;
      status, index, created := Prepare(slot.value, limits.logMemory);
      if status != Ok {
        return;
      }
      if !valueChanged && log[index].spelling == spelling {
        Undo(old(log), index, created);
        return Ok;
      }
      if limits.staging != Ok {
        Undo(old(log), index, created);
        return limits.staging;
      }
      if valueChanged && !limits.valueMemory {
        Undo(old(log), index, created);
        return NoMemory;
      }
      hide AfterSetName, Prepared, Find, Settled;
      status := Rename(slot.value, value, spelling, limits.commit, index, created, old(log));
    }

    /** Writes the name and its prepared record, commits, and settles the record. */
    method Rename(slot: nat, value: string, spelling: Option<string>, commit: Status, index: nat, created: bool,
                  ghost before: Log)
      returns (status: Status)
      requires slot in names && log == Prepared(before, slot, names[slot])
      requires index == Find(before, slot) < |log| && created == (index == |before|)
      modifies this
      ensures (Current(), status) == Renamed(State(old(names), before, old(failed)), slot, value, spelling, commit)
    {
      hide Settled, Find;
      names := names[slot := value];
      var previous := log[index].spelling;
      log := log[index := log[index].(value := value, spelling := spelling)];
      if commit != Ok {
        log := log[index := log[index].(spelling := previous)];
        Undo(before, index, created);
        failed := true;
        return commit;
      }
      Settle(index, spelling);
      status := Ok;
    }

    /** Takes a record out again if this call had appended it. */
    method Undo(ghost before: Log, index: nat, created: bool)
      requires index < |log| && (created ==> index == |before| == |log| - 1 && before <= log)
      modifies this`log
      ensures log == if created then before else old(log)
    {
      if created {
        log := Removed(log, index);
        assert log == before;
      }
    }

    /** Drops the record of a name that is back at its original, or the whole group
        of a relation that is. */
    method Settle(index: nat, spelling: Option<string>)
      requires index < |log|
      modifies this`log
      ensures log == Settled(old(log), index, spelling)
    {
      var group := log[index].group;
      if spelling.None? && group == 0 && log[index].original == log[index].value {
        log := Removed(log, index);
      } else if group != 0 {
        var restored := true;
        var i := 0;
        while i < |log|
          invariant i <= |log| && restored
          invariant forall k | 0 <= k < i :: log[k].group == group ==> log[k].value == log[k].original
        {
          if log[i].group == group && log[i].value != log[i].original {
            restored := false;
            break;
          }
          i := i + 1;
        }
        if restored {
          RemoveGroup(group);
        }
      }
    }

    method RemoveGroup(group: nat)
      modifies this`log
      ensures log == Keep(old(log), GroupPositions(old(log), group), |old(log)|)
    {
      ghost var all := GroupPositions(log, group);
      ghost var left := all;
      var i := |log|;
      while i > 0
        invariant i <= |log| && left == (set k | k in all && k < i)
        invariant forall k | 0 <= k < i :: log[k] == old(log)[k] && (k in left <==> log[k].group == group)
        invariant Keep(log, left, |log|) == Keep(old(log), all, |old(log)|)
      {
        i := i - 1;
        if log[i].group == group {
          KeepRemoved(log, left, i, |log|);
          log := Removed(log, i);
          left := left - {i};
        }
      }
      KeepAll(log, left, |log|);
    }

    /** Prepares the three records of a relation, or none of them. */
    method PreparePath(t: Triple, logMemory: seq<bool>, ghost l: PathLimits)
      returns (status: Status, indices: seq<nat>, created: seq<bool>)
      requires SlotsNamed(names, t) && AreLimits(l) && logMemory == l.logMemory
      modifies this`log
      ensures status == if LogMemoryLasts(old(log), t, l, 3) then Ok else NoMemory
      ensures status != Ok ==> log == old(log)
      ensures status == Ok
           ==> log == PreparedPath(old(log), names, t, 3) && PathAt(old(log), log, t, 3, indices, created)
      ensures status == Ok
           ==> |indices| == 3 == |created| && forall k | 0 <= k < 3 :: indices[k] == Find(log, t[k]) < |log|
    {
      indices, created := [], [];
      for k := 0 to 3
        invariant log == PreparedPath(old(log), names, t, k) && PathAt(old(log), log, t, k, indices, created)
        invariant LogMemoryLasts(old(log), t, l, k)
      {
        ghost var before := log;
        var index, made;
        FreshSlots(old(log), names, t, k);
        status, index, made := Prepare(t[k], logMemory[k]);
        if status != Ok {
          Abandon(t, k, indices, created, old(log));
          return NoMemory, indices, created;
        }
        PathGrows(old(log), before, t[k], names[t[k]], t, k, indices, created);
        indices, created := indices + [index], created + [made];
      }
      status := Ok;
    }

    /** Gives a relation its new path.  The three records enter the log together
        and, once all three names are back at their originals, leave it together. */
    method ReplaceRelation(t: Triple, p: Path, l: PathLimits) returns (status: Status)
      requires IsPath(p) && AreLimits(l) && SlotsNamed(names, t) && Distinct(log)
      modifies this
      ensures (Current(), status) == AfterReplace(old(Current()), t, p, l)
    {
      if !Changes(names, t, p, 0) && !Changes(names, t, p, 1) && !Changes(names, t, p, 2) {
        return Ok;
      }
      if l.planning != Ok {
        return l.planning;
      }
      var indices, created;
      status, indices, created := PreparePath(t, l.logMemory, l);
      if status == Ok {
        DistinctPath(old(log), names, t);
        status := Place(t, p, l, indices, created, old(log));
      }
    }

    /** Changes the slots and their prepared records, or takes the records out again. */
    method Place(t: Triple, p: Path, l: PathLimits, indices: seq<nat>, created: seq<bool>, ghost before: Log)
      returns (status: Status)
      requires IsPath(p) && AreLimits(l) && SlotsNamed(names, t) && Distinct(log)
      requires PathAt(before, log, t, 3, indices, created)
      modifies this
      ensures (Current(), status) == AfterPlace(State(old(names), before, old(failed)), old(log), t, p, l)
    {
      hide CommonGroup, MaxGroup, NamesAfter, Installed, PathAt;
      var common, top := Groups(t);
      if common.None? {
        Abandon(t, 3, indices, created, before);
        return InternalError;
      }
      if common.value == 0 && top >= SIZE_MAX {
        Abandon(t, 3, indices, created, before);
        return ResourceLimit;
      }
      if !l.valueMemory {
        Abandon(t, 3, indices, created, before);
        return NoMemory;
      }
      PathPlaces(before, log, t, indices, created);
      Install(t, p, l, if common.value == 0 then top + 1 else common.value, indices);
      status := Ok;
    }

    /** Takes the records this call created out again. */
    method Abandon(t: Triple, k: nat, indices: seq<nat>, created: seq<bool>, ghost before: Log)
      requires PathAt(before, log, t, k, indices, created)
      modifies this`log
      ensures log == before
    {
      UndoCreated(before, log, t, k, indices, created);
      hide Keep, Find, Flagged;
      RemovePrepared(indices, created);
    }

    /** The common group of the relation's records and the highest group in use. */
    method Groups(t: Triple) returns (common: Option<nat>, top: nat)
      ensures common == CommonGroup(log, t, 3) && top == MaxGroup(log, |log|)
    {
      top := 0;
      for i := 0 to |log|
        invariant top == MaxGroup(log, i)
      {
        if log[i].group > top {
          top := log[i].group;
        }
      }
      common := Some(0);
      for k := 0 to 3
        invariant common == CommonGroup(log, t, k)
      {
        var candidate := GroupAt(log, t[k]);
        if candidate != 0 && common.Some? {
          common := if common.value != 0 && common.value != candidate then None else Some(candidate);
        }
      }
    }

    method Install(t: Triple, p: Path, l: PathLimits, group: nat, indices: seq<nat>)
      requires IsPath(p) && AreLimits(l) && SlotsNamed(names, t)
      requires Distinct(log) && |indices| == 3
      requires forall k | 0 <= k < 3 :: indices[k] == Find(log, t[k]) < |log|
      modifies this
      ensures names == NamesAfter(old(names), t, p, 3) && failed == old(failed)
      ensures log == Installed(old(log), old(names), t, p, l, group)
    {
      hide WhollyRestored, Keep, NamesAfter, AssignedAll, Find, Distinct, AreDistinct;
      var before, first := names, log;
      var restored := WhollyRestored(log, names, t, p, l);
      FoundApart(log, t, indices);
      SetNames(t, p);
      SetValues(indices, p.values);
      if restored {
        TakeOut(t, indices, first);
      } else {
        Regroup(before, t, p, l, group, indices, first);
      }
    }

    method TakeOut(t: Triple, indices: seq<nat>, ghost first: Log)
      requires |indices| == 3 && |log| == |first| && AreDistinct(indices)
      requires forall k | 0 <= k < 3 :: indices[k] == Find(first, t[k]) < |first|
      requires forall i | 0 <= i < |log| && i !in indices :: log[i] == first[i]
      modifies this`log
      ensures log == Keep(first, TriplePositions(first, t), |first|)
    {
      FlaggedAll(first, t, indices, [true, true, true]);
      KeepSame(first, log, TriplePositions(first, t), |log|);
      hide Keep, Find;
      RemovePrepared(indices, [true, true, true]);
    }

    method Regroup(before: map<nat, string>, t: Triple, p: Path, l: PathLimits, group: nat, indices: seq<nat>,
                   ghost first: Log)
      requires IsPath(p) && AreLimits(l) && SlotsNamed(before, t) && Distinct(first) && AreDistinct(indices)
      requires |indices| == 3 && forall k | 0 <= k < 3 :: indices[k] == Find(first, t[k]) < |first|
      requires |log| == |first| && forall i | 0 <= i < |log| && i !in indices :: log[i] == first[i]
      requires forall k | 0 <= k < 3 :: log[indices[k]] == first[indices[k]].(value := p.values[k])
      modifies this`log
      ensures log == AssignedAll(first, before, t, p, l, group)
    {
      SetGroups(indices, [Changes(before, t, p, 0), Changes(before, t, p, 1), Changes(before, t, p, 2)],
                [Spelled(before, t, p, l, 0), Spelled(before, t, p, l, 1), Spelled(before, t, p, l, 2)], group);
      AssignedRecords(first, log, before, t, p, l, group, indices);
    }

    method SetNames(t: Triple, p: Path)
      requires IsPath(p) && SlotsNamed(names, t)
      modifies this`names
      ensures names == NamesAfter(old(names), t, p, 3)
    {
      for k := 0 to 3
        invariant names == NamesAfter(old(names), t, p, k) && SlotsNamed(names, t)
      {
        if names[t[k]] != p.values[k] {
          names := names[t[k] := p.values[k]];
        } else {
          assert names == names[t[k] := p.values[k]];
        }
      }
    }

    method SetValues(indices: seq<nat>, values: seq<string>)
      requires |indices| == |values| && AreDistinct(indices)
      requires forall k | 0 <= k < |indices| :: indices[k] < |log|
      modifies this`log
      ensures |log| == |old(log)|
      ensures forall i | 0 <= i < |log| && i !in indices :: log[i] == old(log)[i]
      ensures forall k | 0 <= k < |indices| :: log[indices[k]] == old(log)[indices[k]].(value := values[k])
    {
      for k := 0 to |indices|
        invariant |log| == |old(log)|
        invariant forall i | 0 <= i < |log| && i !in indices[..k] :: log[i] == old(log)[i]
        invariant forall j | 0 <= j < k :: log[indices[j]] == old(log)[indices[j]].(value := values[j])
      {
        log := log[indices[k] := log[indices[k]].(value := values[k])];
      }
    }

    method SetGroups(indices: seq<nat>, changed: seq<bool>, spelled: seq<Option<string>>, group: nat)
      requires |indices| == |changed| == |spelled| && AreDistinct(indices)
      requires forall k | 0 <= k < |indices| :: indices[k] < |log|
      modifies this`log
      ensures |log| == |old(log)|
      ensures forall i | 0 <= i < |log| && i !in indices :: log[i] == old(log)[i]
      ensures forall k | 0 <= k < |indices| :: log[indices[k]] == old(log)[indices[k]].(group := group,
                spelling := if changed[k] then spelled[k] else old(log)[indices[k]].spelling)
    {
      for k := 0 to |indices|
        invariant |log| == |old(log)|
        invariant forall i | 0 <= i < |log| && i !in indices[..k] :: log[i] == old(log)[i]
        invariant forall j | 0 <= j < k :: log[indices[j]] == old(log)[indices[j]].(group := group,
                    spelling := if changed[j] then spelled[j] else old(log)[indices[j]].spelling)
      {
        log := log[indices[k] := log[indices[k]].(group := group)];
        if changed[k] {
          log := log[indices[k] := log[indices[k]].(spelling := spelled[k])];
        }
      }
    }
  }

  ghost predicate AreDistinct(indices: seq<nat>) {
    forall j, k | 0 <= j < k < |indices| :: indices[j] != indices[k]
  }

  lemma {:induction false} KeepSame(a: Log, b: Log, drop: set<nat>, n: nat)
    requires n <= |a| == |b| && forall i | 0 <= i < n && i !in drop :: a[i] == b[i]
    ensures Keep(a, drop, n) == Keep(b, drop, n)
    decreases n
  {
    if n > 0 {
      KeepSame(a, b, drop, n - 1);
    }
  }

  lemma FoundApart(log: Log, t: Triple, indices: seq<nat>)
    requires |indices| == 3 && forall k | 0 <= k < 3 :: indices[k] == Find(log, t[k]) < |log|
    ensures AreDistinct(indices)
  {
    forall j, k | 0 <= j < k < 3
      ensures indices[j] != indices[k]
    {
      assert log[indices[j]].slot == t[j] && log[indices[k]].slot == t[k];
    }
  }

  lemma FlaggedAll(log: Log, t: Triple, indices: seq<nat>, flags: seq<bool>)
    requires |indices| == |flags| == 3 && forall k | 0 <= k < 3 :: indices[k] == Find(log, t[k]) && flags[k]
    ensures Flagged(indices, flags) == TriplePositions(log, t) == {indices[0], indices[1], indices[2]}
    ensures forall i: nat | i !in Flagged(indices, flags) :: i !in indices
  {
    var f := Flagged(indices, flags);
    forall k | 0 <= k < 3
      ensures indices[k] in f
    {
      assert flags[k];
    }
  }

  /** Changing the three records where they stand assigns the relation its path. */
  lemma AssignedRecords(first: Log, log: Log, names: map<nat, string>, t: Triple, p: Path, l: PathLimits, group: nat,
                        indices: seq<nat>)
    requires IsPath(p) && AreLimits(l) && SlotsNamed(names, t) && Distinct(first)
    requires |indices| == 3 && forall k | 0 <= k < 3 :: indices[k] == Find(first, t[k]) < |first|
    requires |log| == |first|
    requires forall i | 0 <= i < |log| && i !in indices :: log[i] == first[i]
    requires forall k | 0 <= k < 3 :: log[indices[k]] == first[indices[k]].(value := p.values[k], group := group,
               spelling := if Changes(names, t, p, k) then Spelled(names, t, p, l, k) else first[indices[k]].spelling)
    ensures log == AssignedAll(first, names, t, p, l, group)
  {
    hide Spelled, Changes;
    forall i | 0 <= i < |log|
      ensures log[i] == Assigned(first[i], names, t, p, l, group)
    {
      EntryAt(first, i);
      if i in indices {
        var k :| 0 <= k < 3 && indices[k] == i;
        assert first[i].slot == t[k];
      }
    }
  }

  // ----- preparing a path and undoing it

  /** The records of the first k slots stand at `indices`; the created ones are
      exactly those past the end of the earlier log. */
  ghost predicate PathAt(before: Log, log: Log, t: Triple, k: nat, indices: seq<nat>, created: seq<bool>) {
    && k <= 3 && |indices| == |created| == k && before <= log
    && (forall j | 0 <= j < k :: indices[j] == Find(log, t[j]) < |log| && (created[j] <==> indices[j] >= |before|))
    && (forall d | 0 <= d < |log| :: d in Flagged(indices, created) <==> |before| <= d)
  }

  lemma PathPlaces(before: Log, log: Log, t: Triple, indices: seq<nat>, created: seq<bool>)
    requires PathAt(before, log, t, 3, indices, created)
    ensures |indices| == 3 && forall k | 0 <= k < 3 :: indices[k] == Find(log, t[k]) < |log|
  {
  }

  lemma FindInLonger(log: Log, longer: Log, x: nat)
    requires log <= longer && Find(log, x) < |log|
    ensures Find(longer, x) == Find(log, x)
  {
    var i, j := Find(log, x), Find(longer, x);
    assert longer[i] == log[i];
    assert j <= i;
    assert longer[j] == log[j];
  }

  lemma FreshSlots(before: Log, names: map<nat, string>, t: Triple, k: nat)
    requires k < 3 && SlotsNamed(names, t)
    ensures var log := PreparedPath(before, names, t, k);
            before <= log && (Entry(log, t[k]).None? <==> Entry(before, t[k]).None?)
  {
    PathSteps(before, names, t);
    if k == 1 {
      OtherSlot(before, t[0], names[t[0]], t[1]);
    } else if k == 2 {
      OtherSlot(before, t[0], names[t[0]], t[2]);
      OtherSlot(PreparedPath(before, names, t, 1), t[1], names[t[1]], t[2]);
    }
  }

  lemma PathSteps(log: Log, names: map<nat, string>, t: Triple)
    requires SlotsNamed(names, t)
    ensures PreparedPath(log, names, t, 0) == log
    ensures PreparedPath(log, names, t, 1) == Prepared(log, t[0], names[t[0]])
    ensures PreparedPath(log, names, t, 2) == Prepared(PreparedPath(log, names, t, 1), t[1], names[t[1]])
    ensures PreparedPath(log, names, t, 3) == Prepared(PreparedPath(log, names, t, 2), t[2], names[t[2]])
  {
  }

  lemma OtherSlot(log: Log, slot: nat, current: string, x: nat)
    requires x != slot
    ensures log <= Prepared(log, slot, current)
    ensures Entry(Prepared(log, slot, current), x).None? <==> Entry(log, x).None?
  {
    var after := Prepared(log, slot, current);
    if Entry(log, x).Some? {
      FindInLonger(log, after, x);
    }
  }

  lemma PathGrows(before: Log, log: Log, slot: nat, current: string, t: Triple, k: nat, indices: seq<nat>,
                  created: seq<bool>)
    requires k < 3 && PathAt(before, log, t, k, indices, created) && slot == t[k]
    requires Entry(log, slot).None? <==> Entry(before, slot).None?
    ensures var after, i := Prepared(log, slot, current), Find(log, slot);
            PathAt(before, after, t, k + 1, indices + [i], created + [i == |log|])
  {
    var after, i := Prepared(log, slot, current), Find(log, slot);
    forall j | 0 <= j < k
      ensures Find(after, t[j]) == indices[j]
    {
      FindInLonger(log, after, t[j]);
    }
    if i < |log| {
      if Find(before, slot) < |before| {
        FindInLonger(before, log, slot);
      }
    } else {
      assert after[i].slot == slot;
    }
    FlaggedGrows(indices, created, i, i == |log|);
  }

  lemma FlaggedGrows(indices: seq<nat>, flags: seq<bool>, i: nat, flag: bool)
    requires |indices| == |flags|
    ensures Flagged(indices + [i], flags + [flag]) == Flagged(indices, flags) + if flag then {i} else {}
  {
    var a, b := Flagged(indices + [i], flags + [flag]), Flagged(indices, flags) + if flag then {i} else {};
    assert forall k | 0 <= k < |indices| :: (indices + [i])[k] == indices[k] && (flags + [flag])[k] == flags[k];
    assert (indices + [i])[|indices|] == i && (flags + [flag])[|indices|] == flag;
    forall x | x in a ensures x in b {
    }
    forall x | x in b ensures x in a {
    }
  }

  lemma DistinctPath(log: Log, names: map<nat, string>, t: Triple)
    requires Distinct(log) && SlotsNamed(names, t)
    ensures Distinct(PreparedPath(log, names, t, 3))
  {
    var a, b := PreparedPath(log, names, t, 1), PreparedPath(log, names, t, 2);
    PathSteps(log, names, t);
    PreparedEntries(log, t[0], names[t[0]], 0);
    PreparedEntries(a, t[1], names[t[1]], 0);
    PreparedEntries(b, t[2], names[t[2]], 0);
  }

  lemma PathIndices(before: Log, log: Log, t: Triple, k: nat, indices: seq<nat>, created: seq<bool>)
    requires PathAt(before, log, t, k, indices, created)
    ensures |indices| == |created| == k && forall j | 0 <= j < k :: indices[j] < |log| && log[indices[j]].slot == t[j]
    ensures forall d | 0 <= d < |log| :: d in Flagged(indices, created) <==> |before| <= d
    ensures before <= log && k <= 3
  {
  }

  lemma ThreeSlots(t: Triple)
    ensures forall i, j | 0 <= i < j < 3 :: t[i] != t[j]
  {
  }

  /** Taking the created records out gives the earlier log back. */
  lemma UndoCreated(before: Log, log: Log, t: Triple, k: nat, indices: seq<nat>, created: seq<bool>)
    requires PathAt(before, log, t, k, indices, created)
    ensures Keep(log, Flagged(indices, created), |log|) == before
    ensures |indices| == |created| == k && forall j | 0 <= j < k :: indices[j] < |log|
    ensures forall i, j | 0 <= i < j < k :: indices[i] != indices[j]
  {
    PathIndices(before, log, t, k, indices, created);
    ThreeSlots(t);
    hide PathAt, Find, Flagged, Keep;
    KeepPrefix(log, Flagged(indices, created), |before|, |log|);
  }

  function Flagged(indices: seq<nat>, flags: seq<bool>): set<nat>
    requires |indices| <= |flags|
  {
    set k | 0 <= k < |indices| && flags[k] :: indices[k]
  }
}

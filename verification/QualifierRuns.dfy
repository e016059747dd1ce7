/** The log over runs that also rewrite bound qualifiers: the records of the old
    qualifiers leave it, those of the new ones enter it. */
module QualifierRuns {
  import opened Wrappers
  import opened ChangeLog
  import opened Renames
  import opened RenameRuns
  import opened RelationRename

  datatype Install = Install(slot: nat, spelling: string)

  /** What one rewrite does to the identifier slots: those that go, the new ones with
      their strings, and the spellings installed for them and for columns that move. */
  datatype Rewrite = Rewrite(gone: seq<nat>, texts: map<nat, string>, installs: seq<Install>)

  // ----- records that go

  function PositionsOf(log: Log, slot: nat): set<nat> {
    set i | 0 <= i < |log| && log[i].slot == slot
  }

  function Forgotten(log: Log, gone: seq<nat>, n: nat): Log
    requires n <= |gone|
  {
    if n == 0 then log
    else
      var r := Forgotten(log, gone, n - 1);
      Keep(r, PositionsOf(r, gone[n - 1]), |r|)
  }

  lemma {:induction false} ForgottenEntries(log: Log, gone: seq<nat>, n: nat, x: nat)
    requires n <= |gone| && Distinct(log)
    ensures Distinct(Forgotten(log, gone, n))
    ensures Entry(Forgotten(log, gone, n), x) == if x in gone[..n] then None else Entry(log, x)
    decreases n
  {
    if n > 0 {
      ForgottenEntries(log, gone, n - 1, x);
      var r := Forgotten(log, gone, n - 1);
      KeepEntries(r, PositionsOf(r, gone[n - 1]), x);
      assert gone[..n] == gone[..n - 1] + [gone[n - 1]];
    }
  }

  // ----- records that come

  function Spelt(log: Log, names: map<nat, string>, x: Install): Log
    requires x.slot in names
  {
    var ready, i := Prepared(log, x.slot, names[x.slot]), Find(log, x.slot);
    ready[i := ready[i].(spelling := Some(x.spelling), value := names[x.slot])]
  }

  predicate AreNamed(names: map<nat, string>, installs: seq<Install>) {
    forall i | 0 <= i < |installs| :: installs[i].slot in names
  }

  function SpeltAll(log: Log, names: map<nat, string>, installs: seq<Install>, n: nat): Log
    requires n <= |installs| && AreNamed(names, installs)
  {
    if n == 0 then log else Spelt(SpeltAll(log, names, installs, n - 1), names, installs[n - 1])
  }

  /** A record that was there keeps its original and its group. */
  ghost predicate Respelt(log: Log, after: Log, names: map<nat, string>, x: nat) {
    var e, f := Entry(log, x), Entry(after, x);
    f == e || (x in names && f.Some? && f.value.spelling.Some? && f.value.value == names[x]
               && f.value.original == (if e.Some? then e.value.original else names[x])
               && f.value.group == GroupAt(log, x))
  }

  lemma SpeltEntries(log: Log, names: map<nat, string>, install: Install, x: nat)
    requires Distinct(log) && install.slot in names
    ensures Distinct(Spelt(log, names, install)) && Respelt(log, Spelt(log, names, install), names, x)
  {
    var ready, i := Prepared(log, install.slot, names[install.slot]), Find(log, install.slot);
    PreparedEntries(log, install.slot, names[install.slot], x);
    PreparedEntries(log, install.slot, names[install.slot], install.slot);
    var e := ready[i].(spelling := Some(install.spelling), value := names[install.slot]);
    UpdatedEntries(ready, i, e, x);
  }

  lemma {:induction false} SpeltAllEntries(log: Log, names: map<nat, string>, installs: seq<Install>, n: nat, x: nat)
    requires Distinct(log) && n <= |installs| && AreNamed(names, installs)
    ensures Distinct(SpeltAll(log, names, installs, n)) && Respelt(log, SpeltAll(log, names, installs, n), names, x)
    decreases n
  {
    hide Spelt;
    if n > 0 {
      SpeltAllEntries(log, names, installs, n - 1, x);
      SpeltEntries(SpeltAll(log, names, installs, n - 1), names, installs[n - 1], x);
    }
  }

  // ----- the whole rewrite

  /** New slots are new or take the place of one that goes; what is spelled is there. */
  ghost predicate Fits(names: map<nat, string>, r: Rewrite) {
    && (forall x | x in r.texts && x in names :: x in r.gone)
    && AreNamed(Exchanged(names, r), r.installs)
  }

  /** The strings of the slots once the qualifiers are exchanged. */
  function Exchanged(names: map<nat, string>, r: Rewrite): map<nat, string> {
    (names - set x | x in r.gone) + r.texts
  }

  /** The state after a rewrite of which `installed` spellings could be installed. */
  function Requalified(s: State, r: Rewrite, installed: nat): State
    requires installed <= |r.installs| && AreNamed(Exchanged(s.names, r), r.installs)
  {
    var names := Exchanged(s.names, r);
    State(names, SpeltAll(Forgotten(s.log, r.gone, |r.gone|), names, r.installs, installed), s.failed)
  }

  /** Takes every record of a slot out, from the last to the first. */
  method Forget(h: Handle, slot: nat)
    modifies h`log
    ensures h.log == Keep(old(h.log), PositionsOf(old(h.log), slot), |old(h.log)|)
  {
    ghost var all := PositionsOf(h.log, slot);
    ghost var left := all;
    var i := |h.log|;
    while i > 0
      invariant i <= |h.log| && left == (set k | k in all && k < i)
      invariant forall k | 0 <= k < i :: h.log[k] == old(h.log)[k] && (k in left <==> h.log[k].slot == slot)
      invariant Keep(h.log, left, |h.log|) == Keep(old(h.log), all, |old(h.log)|)
    {
      i := i - 1;
      if h.log[i].slot == slot {
        KeepRemoved(h.log, left, i, |h.log|);
        h.log := Removed(h.log, i);
        left := left - {i};
      }
    }
    KeepAll(h.log, left, |h.log|);
  }

  /** Applies a rewrite to the log, stopping at the first spelling that cannot be had. */
  method Requalify(h: Handle, r: Rewrite, memory: nat) returns (status: Status, installed: nat)
    requires AreNamed(Exchanged(h.names, r), r.installs)
    modifies h
    ensures installed == if memory < |r.installs| then memory else |r.installs|
    ensures status == if memory < |r.installs| then NoMemory else Ok
    ensures h.Current() == Requalified(old(h.Current()), r, installed)
  {
    hide Keep, Spelt, PositionsOf;
    for k := 0 to |r.gone|
      invariant h.names == old(h.names) && h.failed == old(h.failed)
      invariant h.log == Forgotten(old(h.log), r.gone, k)
    {
      Forget(h, r.gone[k]);
    }
    h.names := Exchanged(h.names, r);
    ghost var base := h.log;
    installed := 0;
    while installed < |r.installs|
      invariant installed <= |r.installs| && installed <= memory
      invariant h.names == Exchanged(old(h.names), r) && h.failed == old(h.failed)
      invariant h.log == SpeltAll(base, h.names, r.installs, installed)
    {
      if installed == memory {
        return NoMemory, installed;
      }
      Spell(h, r.installs[installed]);
      installed := installed + 1;
    }
    status := Ok;
  }

  method Spell(h: Handle, x: Install)
    requires x.slot in h.names
    modifies h`log
    ensures h.log == Spelt(old(h.log), h.names, x)
  {
    var status, index, created := h.Prepare(x.slot, true);
    h.log := h.log[index := h.log[index].(spelling := Some(x.spelling), value := h.names[x.slot])];
  }

  // ----- the invariant

  lemma RewriteTracksSlot(parse: map<nat, string>, s: State, r: Rewrite, installed: nat, x: nat)
    requires Tracks(parse, s) && Fits(s.names, r) && installed <= |r.installs|
    ensures var after, base := Requalified(s, r, installed), Exchanged(parse, r);
            && Distinct(after.log) && (Entry(after.log, x).Some? ==> x in base)
            && (x in base ==> x in after.names && Tracked(base, after, x))
  {
    hide Forgotten, SpeltAll, Find;
    var names, log := Exchanged(s.names, r), Forgotten(s.log, r.gone, |r.gone|);
    ForgottenEntries(s.log, r.gone, |r.gone|, x);
    assert r.gone[..|r.gone|] == r.gone;
    SpeltAllEntries(log, names, r.installs, installed, x);
    if x in parse {
      assert Tracked(parse, s, x);
    }
  }

  lemma RewriteTracks(parse: map<nat, string>, s: State, r: Rewrite, installed: nat)
    requires Tracks(parse, s) && Fits(s.names, r) && installed <= |r.installs|
    ensures Tracks(Exchanged(parse, r), Requalified(s, r, installed))
  {
    hide Requalified;
    var after, base := Requalified(s, r, installed), Exchanged(parse, r);
    NamesOf(s, r, installed);
    SameSlotsExchanged(parse, s.names, r);
    RewriteTracksSlot(parse, s, r, installed, 0);
    assert Distinct(after.log) && after.names.Keys == base.Keys;
    forall x: nat
      ensures Entry(after.log, x).Some? ==> x in base
      ensures x in base ==> x in after.names && Tracked(base, after, x)
    {
      RewriteTracksSlot(parse, s, r, installed, x);
    }
  }

  lemma SameSlotsExchanged(parse: map<nat, string>, names: map<nat, string>, r: Rewrite)
    requires parse.Keys == names.Keys
    ensures Exchanged(parse, r).Keys == Exchanged(names, r).Keys
  {
    var a, b := Exchanged(parse, r), Exchanged(names, r);
    assert forall x :: x in a <==> x in b;
  }

  lemma NamesOf(s: State, r: Rewrite, installed: nat)
    requires installed <= |r.installs| && AreNamed(Exchanged(s.names, r), r.installs)
    ensures Requalified(s, r, installed).names == Exchanged(s.names, r)
    ensures Requalified(s, r, installed).failed == s.failed
  {
  }

  /** No slot of a relation is a qualifier. */
  ghost predicate Apart(triples: map<nat, Triple>, r: Rewrite) {
    forall x | x in r.gone :: x !in triples
  }

  lemma RewriteGroups(triples: map<nat, Triple>, s: State, r: Rewrite, installed: nat)
    requires Distinct(s.log) && Grouped(triples, s.log) && Known(triples) && Apart(triples, r)
    requires AreNamed(Exchanged(s.names, r), r.installs) && installed <= |r.installs|
    ensures Grouped(triples, Requalified(s, r, installed).log)
  {
    var after := Requalified(s, r, installed);
    var names, log := Exchanged(s.names, r), Forgotten(s.log, r.gone, |r.gone|);
    forall x: nat
      ensures GroupAt(after.log, x) == if GroupAt(s.log, x) in {} then 0 else GroupAt(s.log, x)
    {
      ForgottenEntries(s.log, r.gone, |r.gone|, x);
      assert r.gone[..|r.gone|] == r.gone;
      SpeltAllEntries(log, names, r.installs, installed, x);
    }
    Regrouped(triples, s.log, after.log, {});
  }

  // ----- runs of all three kinds of calls

  /** What a combined relation call meets once the relation has its path: a failure of
      planning, or the rewrite with the spellings that can be installed and the commit. */
  datatype Outcome = Unplanned | Rewritten(rewrite: Rewrite, installed: nat, commit: Status)

  datatype MixedCall =
    | Simple(call: Call)
    | Combined(relation: Triple, path: Path, limits: PathLimits, second: Option<Second>, outcome: Outcome)

  /** The handle, and the names its slots started with. */
  datatype World = World(base: map<nat, string>, state: State)

  /** A call addresses slots that are there, relations by their own slots, and no
      relation's slots as qualifiers. */
  ghost predicate Allowed(triples: map<nat, Triple>, w: World, c: MixedCall) {
    match c
    case Simple(call) => w.state.names.Keys == w.base.Keys && Addressed(w.base, triples, call)
    case Combined(t, p, l, second, outcome) =>
      && w.state.names.Keys == w.base.Keys && Addressed(w.base, triples, RelationCall(t, p, l))
      && AreRelations(w.state.names, t, second)
      && (second.Some? ==> Addressed(w.base, triples, RelationCall(second.value.relation, p, second.value.limits)))
      && (outcome.Rewritten? ==>
            && Apart(triples, outcome.rewrite)
            && Fits(BothPaths(w.state, c.relation, c.path, c.limits, c.second).0.names, outcome.rewrite)
            && outcome.installed <= |outcome.rewrite.installs|)
  }

  /** A combined call that fails on the way keeps what it had done; only a commit
      that fails poisons the handle. */
  ghost function Next(triples: map<nat, Triple>, w: World, c: MixedCall): World
    requires Allowed(triples, w, c)
  {
    match c
    case Simple(call) => World(w.base, Step(w.base, triples, w.state, call).0)
    case Combined(_, _, _, _, outcome) =>
      var paths := BothPaths(w.state, c.relation, c.path, c.limits, c.second);
      if paths.1 != Ok || outcome.Unplanned? then World(w.base, paths.0)
      else
        var after := World(Exchanged(w.base, outcome.rewrite),
                           Requalified(paths.0, outcome.rewrite, outcome.installed));
        if outcome.installed < |outcome.rewrite.installs| || outcome.commit == Ok then after
        else after.(state := after.state.(failed := true))
  }

  lemma BothKeep(triples: map<nat, Triple>, w: World, c: MixedCall)
    requires Known(triples) && Tracks(w.base, w.state) && Grouped(triples, w.state.log) && c.Combined?
    requires Allowed(triples, w, c) && !w.state.failed
    ensures var after := BothPaths(w.state, c.relation, c.path, c.limits, c.second).0;
            !after.failed && Tracks(w.base, after) && Grouped(triples, after.log)
  {
    hide AfterReplace, Tracks, Grouped, Known, Fits, Apart;
    NamesStay(w.state, c.relation, c.path, c.limits);
    ReplaceKeeps(w.base, triples, w.state, c.relation, c.path, c.limits);
    var first := AfterReplace(w.state, c.relation, c.path, c.limits);
    if first.1 == Ok && c.second.Some? {
      NamesStay(first.0, c.second.value.relation, c.path, c.second.value.limits);
      ReplaceKeeps(w.base, triples, first.0, c.second.value.relation, c.path, c.second.value.limits);
    }
  }

  /** A combined call poisons the handle exactly if it comes to the commit, all paths taken
      and all spellings installed, and the commit fails. */
  lemma OnlyCommitPoisons(triples: map<nat, Triple>, w: World, c: MixedCall)
    requires Allowed(triples, w, c) && c.Combined?
    ensures Next(triples, w, c).state.failed
       <==> || w.state.failed
            || (&& BothPaths(w.state, c.relation, c.path, c.limits, c.second).1 == Ok && c.outcome.Rewritten?
                && c.outcome.installed == |c.outcome.rewrite.installs| && c.outcome.commit != Ok)
  {
    hide AfterReplace;
    NamesStay(w.state, c.relation, c.path, c.limits);
    var first := AfterReplace(w.state, c.relation, c.path, c.limits);
    if first.1 == Ok && c.second.Some? {
      NamesStay(first.0, c.second.value.relation, c.path, c.second.value.limits);
    }
    var paths := BothPaths(w.state, c.relation, c.path, c.limits, c.second);
    if c.outcome.Rewritten? {
      NamesOf(paths.0, c.outcome.rewrite, c.outcome.installed);
    }
  }

  lemma NextKeeps(triples: map<nat, Triple>, w: World, c: MixedCall)
    requires Known(triples) && Sound(w.base, triples, w.state) && !w.state.failed && Allowed(triples, w, c)
    ensures Sound(Next(triples, w, c).base, triples, Next(triples, w, c).state)
  {
    hide Tracks, Grouped, Known, BothPaths, Requalified, AfterSetName, AfterReplace, Fits, Apart;
    match c {
      case Simple(NameCall(slot, value, spelling, limits)) =>
        NameKeeps(w.base, triples, w.state, slot, value, spelling, limits);
      case Simple(RelationCall(t, p, l)) => ReplaceKeeps(w.base, triples, w.state, t, p, l);
      case Combined(_, _, _, _, outcome) =>
        BothKeep(triples, w, c);
        if outcome.Rewritten? {
          RewriteKeeps(w.base, triples, BothPaths(w.state, c.relation, c.path, c.limits, c.second).0,
                       outcome.rewrite, outcome.installed);
        }
    }
  }

  lemma RewriteKeeps(base: map<nat, string>, triples: map<nat, Triple>, s: State, r: Rewrite, installed: nat)
    requires Known(triples) && Tracks(base, s) && Grouped(triples, s.log)
    requires Apart(triples, r) && Fits(s.names, r) && installed <= |r.installs|
    ensures var after := Requalified(s, r, installed);
            after.failed == s.failed && Tracks(Exchanged(base, r), after) && Grouped(triples, after.log)
  {
    DistinctLog(base, s);
    NamesOf(s, r, installed);
    RewriteTracks(base, s, r, installed);
    RewriteGroups(triples, s, r, installed);
  }

  /** One step by a call that is allowed; a poisoned handle takes no more. */
  ghost predicate Follows(triples: map<nat, Triple>, w: World, c: MixedCall, next: World) {
    if w.state.failed then next == w else Allowed(triples, w, c) && next == Next(triples, w, c)
  }

  /** The worlds a sequence of calls leads through. */
  ghost predicate IsRun(triples: map<nat, Triple>, worlds: seq<World>, calls: seq<MixedCall>) {
    && |worlds| == |calls| + 1
    && forall i | 0 <= i < |calls| :: Follows(triples, worlds[i], calls[i], worlds[i + 1])
  }

  lemma StepKeeps(triples: map<nat, Triple>, w: World, c: MixedCall, next: World)
    requires Known(triples) && Sound(w.base, triples, w.state) && Follows(triples, w, c, next)
    ensures Sound(next.base, triples, next.state)
  {
    hide Sound, Known, Allowed, Next;
    if !w.state.failed {
      NextKeeps(triples, w, c);
    }
  }

  /** The invariant of the log holds at every moment of every run, combined calls that
      fail half way included. */
  lemma {:induction false} MixedRunKeeps(triples: map<nat, Triple>, worlds: seq<World>, calls: seq<MixedCall>, i: nat)
    requires Known(triples) && IsRun(triples, worlds, calls) && i < |worlds|
    requires Sound(worlds[0].base, triples, worlds[0].state)
    ensures Sound(worlds[i].base, triples, worlds[i].state)
    decreases i
  {
    hide Sound, Known, Follows;
    if i > 0 {
      var k: nat := i - 1;
      MixedRunKeeps(triples, worlds, calls, k);
      assert Follows(triples, worlds[k], calls[k], worlds[k + 1]);
      StepKeeps(triples, worlds[k], calls[k], worlds[i]);
    }
  }
}

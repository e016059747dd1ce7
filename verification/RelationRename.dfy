/** Replacing a relation together with the qualifiers of everything bound to it. */
module RelationRename {
  import opened Wrappers
  import opened ChangeLog
  import opened Renames
  import opened RenameRuns
  import O = RenameOutcomes
  import Q = QualifierPlans

  /** The nonempty parts of a relation path, in order. */
  function PathParts(p: Path): (r: seq<string>)
    requires IsPath(p)
    ensures forall part | part in r :: part != ""
  {
    PartOrNone(p, 0) + PartOrNone(p, 1) + PartOrNone(p, 2)
  }

  /** Where the nonempty values of a path stand among its parts. */
  lemma PartsAre(p: Path)
    requires IsPath(p)
    ensures var n := (k: int) => if 0 <= k < 3 && p.values[k] != "" then 1 else 0;
            && |PathParts(p)| == n(0) + n(1) + n(2)
            && (p.values[0] != "" ==> PathParts(p)[0] == p.values[0])
            && (p.values[1] != "" ==> PathParts(p)[n(0)] == p.values[1])
            && (p.values[2] != "" ==> PathParts(p)[n(0) + n(1)] == p.values[2])
  {
  }

  function PartOrNone(p: Path, k: nat): seq<string>
    requires IsPath(p) && k < 3
  {
    if p.values[k] == "" then [] else [p.values[k]]
  }

  /** What the call meets outside the log and the store: copying the values, finding
      the relation's spellings, and, in order, the lookups of the columns' spellings,
      the installation of the qualifiers' spellings, and the commit. */
  datatype Limits = Limits(path: PathLimits, valueCopies: Status, output: Status, lookups: seq<Status>, install: Status,
                           commit: Status)

  /** A relation that some dialects rename along, after the first. */
  datatype Second = Second(relation: Triple, limits: PathLimits)

  ghost predicate AreRelations(names: map<nat, string>, t: Triple, second: Option<Second>) {
    && SlotsNamed(names, t)
    && (second.Some? ==> && AreLimits(second.value.limits) && SlotsNamed(names, second.value.relation)
                         && forall x | x in second.value.relation :: x !in t)
  }

  /** The state once the relation, and the second one after it, got the new path. */
  function BothPaths(s: State, t: Triple, p: Path, l: PathLimits, second: Option<Second>): (State, Status)
    requires IsPath(p) && AreLimits(l) && AreRelations(s.names, t, second)
  {
    var first := AfterReplace(s, t, p, l);
    if first.1 != Ok || second.None? then first
    else
      NamesStay(s, t, p, l);
      AfterReplace(first.0, second.value.relation, p, second.value.limits)
  }

  lemma NamesStay(s: State, t: Triple, p: Path, l: PathLimits)
    requires IsPath(p) && AreLimits(l) && SlotsNamed(s.names, t)
    ensures AfterReplace(s, t, p, l).0.names.Keys == s.names.Keys && AfterReplace(s, t, p, l).0.failed == s.failed
  {
    hide Installed, PreparedPath, CommonGroup, MaxGroup;
  }

  lemma StillDistinct(s: State, t: Triple, p: Path, l: PathLimits)
    requires IsPath(p) && AreLimits(l) && SlotsNamed(s.names, t) && Distinct(s.log)
    ensures Distinct(AfterReplace(s, t, p, l).0.log)
  {
    hide CommonGroup, MaxGroup, Changes, LogMemoryLasts, PreparedPath, Installed, NamesAfter, Entry;
    var log := PreparedPath(s.log, s.names, t, 3);
    forall k | 0 <= k < 3
      ensures Distinct(log) && Entry(log, t[k]).Some?
    {
      PathEntries(s.log, s.names, t, t[k]);
    }
    forall group: nat
      ensures Distinct(Installed(log, s.names, t, p, l, group))
    {
      InstalledEntries(log, s.names, t, p, l, group, 0);
    }
  }

  /** How far a call came.  Nothing is taken back: once `HalfNamed` is reached the
      first relation keeps the new path and the log its records. */
  datatype Stage = Untouched | HalfNamed | Renamed | Rewritten

  /** Some reference with qualifiers is bound to the relation. */
  predicate IsQualified(refs: seq<Q.Reference>, bindings: seq<nat>)
    requires Q.AreReferences(refs, bindings)
  {
    exists i | 0 <= i < |bindings| :: !Q.IsUnqualified(refs[bindings[i]])
  }

  /** The values can be copied, where that is needed, and the relation takes its new path. */
  predicate Accepts(s: State, refs: seq<Q.Reference>, t: Triple, p: Path, second: Option<Second>, bindings: seq<nat>,
                    l: Limits)
    requires IsPath(p) && AreLimits(l.path) && SlotsNamed(s.names, t) && Q.AreReferences(refs, bindings)
  {
    && (IsQualified(refs, bindings) || second.Some? ==> l.valueCopies == Ok)
    && AfterReplace(s, t, p, l.path).1 == Ok
  }

  /** The bound references can take the new qualifiers. */
  predicate CanRewrite(m: Q.Memory, refs: seq<Q.Reference>, p: Path, bindings: seq<nat>, l: Limits, budget: nat)
    requires IsPath(p) && Q.AreReferences(refs, bindings) && |l.lookups| == |bindings|
  {
    IsQualified(refs, bindings)
    ==> && PathParts(p) != [] && l.output == Ok
        && Q.CanPlanAll(m, refs, bindings, PathParts(p), l.lookups, budget, |bindings|)
  }

  /** The first relation takes the path exactly if it would alone, and the values could be
      copied unless all references are bare targets and there is no second relation. */
  lemma AcceptsMeans(s: State, refs: seq<Q.Reference>, t: Triple, p: Path, second: Option<Second>, bindings: seq<nat>,
                     l: Limits)
    requires IsPath(p) && AreLimits(l.path) && SlotsNamed(s.names, t) && Q.AreReferences(refs, bindings)
    ensures Accepts(s, refs, t, p, second, bindings, l)
       <==> && AfterReplace(s, t, p, l.path).1 == Ok
            && (l.valueCopies == Ok
                || (second == None && forall c | c in bindings :: refs[c].name.Some? && refs[c].list.slots == []))
  {
    hide AfterReplace;
  }

  /** Both relations take the path exactly if the first one does and, from where that
      leads, the second one; then their six slots have the new values and no other slot
      has. */
  lemma BothMean(s: State, t: Triple, p: Path, l: PathLimits, second: Option<Second>)
    requires IsPath(p) && AreLimits(l) && AreRelations(s.names, t, second) && Distinct(s.log)
    ensures var first, r := AfterReplace(s, t, p, l), BothPaths(s, t, p, l, second);
            var moved := s.names[t[0] := p.values[0]][t[1] := p.values[1]][t[2] := p.values[2]];
            && (second == None ==> r == first)
            && (first.1 != Ok ==> r == (s, first.1))
            && (first.1 == Ok && second.Some? ==>
                  && first.0.names == moved
                  && r == AfterReplace(first.0, second.value.relation, p, second.value.limits)
                  && (r.1 != Ok ==> r.0 == first.0)
                  && (r.1 == Ok ==>
                        var u := second.value.relation;
                        r.0.names == moved[u[0] := p.values[0]][u[1] := p.values[1]][u[2] := p.values[2]]))
  {
    O.PathSucceeds(s, t, p, l);
    StillDistinct(s, t, p, l);
    if second.Some? {
      NamesStay(s, t, p, l);
      O.PathSucceeds(AfterReplace(s, t, p, l).0, second.value.relation, p, second.value.limits);
    }
    hide AfterReplace, O.OneOrNone, O.GroupLeft, O.Unlogged, Distinct;
  }

  /** The references can take the path exactly if all of them are bare targets, or some
      value of the path is not empty, it can be written out, each reference is well made
      with a spelling found where its column loses its place, and memory lasts. */
  lemma RewritableMeans(m: Q.Memory, refs: seq<Q.Reference>, p: Path, bindings: seq<nat>, l: Limits, budget: nat)
    requires IsPath(p) && Q.AreReferences(refs, bindings) && |l.lookups| == |bindings|
    ensures CanRewrite(m, refs, p, bindings, l, budget)
       <==> || (forall c | c in bindings :: refs[c].name.Some? && refs[c].list.slots == [])
            || (&& (p.values[0] != "" || p.values[1] != "" || p.values[2] != "") && l.output == Ok
                && Q.Cost(m, refs, bindings, PathParts(p), |bindings|) <= budget
                && forall i | 0 <= i < |bindings| ::
                     || (refs[bindings[i]].name.Some? && refs[bindings[i]].list.slots == [])
                     || (&& Q.WellMade(m, refs[bindings[i]])
                         && (Q.LosesPlace(m, refs[bindings[i]], PathParts(p)) ==> l.lookups[i] == Ok)))
  {
    hide Q.CanPlanAll, Q.Cost, Q.WellMade, Q.LosesPlace, PathParts;
    PartsAre(p);
    Q.PlannableMeans(m, refs, bindings, PathParts(p), l.lookups, budget, |bindings|);
  }

  /** The new path is not the one the relation has. */
  predicate Differs(names: map<nat, string>, t: Triple, p: Path)
    requires IsPath(p) && SlotsNamed(names, t)
  {
    names[t[0]] != p.values[0] || names[t[1]] != p.values[1] || names[t[2]] != p.values[2]
  }

  /** The new path moves a name of a relation that takes it. */
  predicate Moves(s: State, t: Triple, p: Path, l: PathLimits, second: Option<Second>)
    requires IsPath(p) && AreLimits(l) && AreRelations(s.names, t, second)
  {
    Differs(s.names, t, p)
    || (second.Some? && BothPaths(s, t, p, l, second).1 == Ok && Differs(s.names, second.value.relation, p))
  }

  /** The relation's new name, unless it is empty, stands directly in front of the column. */
  predicate CarriesName(m: Q.Memory, r: Q.Reference, p: Path)
    requires IsPath(p)
  {
    p.values[2] != "" ==> Q.InFront(m, r, 0) == Some(p.values[2])
  }

  /** Replaces the path of a relation, and of the one that is renamed along, and the
      qualifiers bound to it.  A call that fails after the first relation leaves what
      was renamed beside the old qualifiers, with no commit attempted.  So the call is
      all or nothing if and only if the first relation refuses the path, everything
      else succeeds, or no relation that took the path was named otherwise. */
  method Replace(h: Handle, s: Q.Store, f: Q.Foreign, t: Triple, p: Path, second: Option<Second>, bindings: seq<nat>,
                 l: Limits)
    returns (status: Status, stage: Stage)
    requires IsPath(p) && AreLimits(l.path) && AreRelations(h.names, t, second) && Distinct(h.log)
    requires s.Balanced(f) && s.plans == [] && Q.AreReferences(s.refs, bindings) && |l.lookups| == |bindings|
    requires Q.AreDistinct(Q.Qualifying(s.refs, bindings, |bindings|))
    modifies h, s
    ensures s.Balanced(f) && s.plans == []
    ensures stage == Untouched <==> !Accepts(old(h.Current()), old(s.refs), t, p, second, bindings, l)
    ensures stage == HalfNamed
       <==> && Accepts(old(h.Current()), old(s.refs), t, p, second, bindings, l)
            && BothPaths(old(h.Current()), t, p, l.path, second).1 != Ok
    ensures stage == Rewritten
       <==> && Accepts(old(h.Current()), old(s.refs), t, p, second, bindings, l)
            && BothPaths(old(h.Current()), t, p, l.path, second).1 == Ok
            && CanRewrite(old(s.memory), old(s.refs), p, bindings, l, old(s.budget))
    ensures (stage != Rewritten && h.names != old(h.names))
       <==> && Accepts(old(h.Current()), old(s.refs), t, p, second, bindings, l)
            && !(BothPaths(old(h.Current()), t, p, l.path, second).1 == Ok
                 && CanRewrite(old(s.memory), old(s.refs), p, bindings, l, old(s.budget)))
            && Moves(old(h.Current()), t, p, l.path, second)
    ensures stage == Untouched
        ==> && h.Current() == old(h.Current())
            && status == if (IsQualified(old(s.refs), bindings) || second.Some?) && l.valueCopies != Ok
                         then l.valueCopies else AfterReplace(old(h.Current()), t, p, l.path).1
    ensures stage != Untouched ==> && h.names == BothPaths(old(h.Current()), t, p, l.path, second).0.names
                                   && h.log == BothPaths(old(h.Current()), t, p, l.path, second).0.log
    ensures stage == HalfNamed ==> status == BothPaths(old(h.Current()), t, p, l.path, second).1
    ensures stage == Renamed
        ==> status == if PathParts(p) == [] then InternalError else if l.output != Ok then l.output
                      else Q.PlansStatus(old(s.memory), old(s.refs), bindings, PathParts(p), l.lookups,
                                         old(s.budget), |bindings|)
    ensures stage != Rewritten ==> && status != Ok && s.refs == old(s.refs) && s.memory == old(s.memory)
                                   && h.failed == old(h.failed)
    ensures stage == Rewritten ==>
              && status == (if l.install != Ok then l.install else l.commit)
              && (h.failed <==> old(h.failed) || (l.install == Ok && l.commit != Ok))
              && |s.refs| == |old(s.refs)| && forall c | 0 <= c < |s.refs| ::
                   if c in bindings && !(old(s.refs)[c].name.Some? && old(s.refs)[c].list.slots == [])
                   then Q.Requalified(s.memory, old(s.refs)[c], s.refs[c], PathParts(p))
                        && CarriesName(s.memory, s.refs[c], p)
                   else s.refs[c] == old(s.refs)[c]
  {
    hide AfterReplace, PathParts, Differs, Moves, Distinct, IsQualified, Q.CanPlanAll, Q.Balance, Q.AreDistinct,
         Q.Requalified, CarriesName, Q.Qualifying;
    var qualified := IsQualified(s.refs, bindings);
    if (qualified || second.Some?) && l.valueCopies != Ok {
      return l.valueCopies, Untouched;
    }
    BothMove(h.Current(), t, p, l.path, second);
    var accepted;
    status, accepted := RenameBoth(h, t, p, l.path, second);
    if !accepted {
      return status, Untouched;
    }
    if status != Ok {
      return status, HalfNamed;
    }
    var parts := PathParts(p);
    if qualified {
      if parts == [] {
        return InternalError, Renamed;
      }
      if l.output != Ok {
        return l.output, Renamed;
      }
    } else {
      NothingToPlan(s.memory, s.refs, bindings, parts, l.lookups, s.budget, |bindings|);
    }
    var applied;
    status, applied := s.Rewrite(f, bindings, parts, l.lookups, l.install, l.commit);
    if !applied {
      return status, Renamed;
    }
    h.failed := h.failed || (l.install == Ok && l.commit != Ok);
    AllCarryName(old(s.memory), old(s.refs), s.memory, s.refs, bindings, p, l, old(s.budget));
    return status, Rewritten;
  }

  /** A name that is not empty is the part directly in front of the column. */
  lemma NameInFront(m: Q.Memory, before: Q.Reference, after: Q.Reference, p: Path)
    requires IsPath(p) && p.values[2] != "" && Q.Requalified(m, before, after, PathParts(p))
    requires |before.list.slots| >= if before.name.Some? then 1 else 2
    ensures Q.InFront(m, after, 0) == Some(p.values[2])
  {
    PartsAre(p);
  }

  lemma AllCarryName(before: Q.Memory, was: seq<Q.Reference>, m: Q.Memory, refs: seq<Q.Reference>, bindings: seq<nat>,
                     p: Path, l: Limits, budget: nat)
    requires IsPath(p) && Q.AreReferences(was, bindings) && |l.lookups| == |bindings| && |refs| == |was|
    requires Q.CanPlanAll(before, was, bindings, PathParts(p), l.lookups, budget, |bindings|)
    requires forall c | 0 <= c < |refs| && c in bindings && !Q.IsUnqualified(was[c]) ::
               Q.Requalified(m, was[c], refs[c], PathParts(p))
    ensures forall c | 0 <= c < |refs| && c in bindings && !Q.IsUnqualified(was[c]) :: CarriesName(m, refs[c], p)
  {
    hide Q.CanPlanAll, Q.Requalified, PathParts;
    forall c | 0 <= c < |refs| && c in bindings && !Q.IsUnqualified(was[c])
      ensures CarriesName(m, refs[c], p)
    {
      if p.values[2] != "" {
        BoundIsQualified(before, was, bindings, PathParts(p), l.lookups, budget, c);
        NameInFront(m, was[c], refs[c], p);
      }
    }
  }

  lemma BoundIsQualified(m: Q.Memory, refs: seq<Q.Reference>, bindings: seq<nat>, parts: seq<string>,
                         lookups: seq<Status>, budget: nat, c: nat)
    requires |bindings| == |lookups| && Q.AreReferences(refs, bindings)
    requires Q.CanPlanAll(m, refs, bindings, parts, lookups, budget, |bindings|)
    requires c in bindings && !Q.IsUnqualified(refs[c])
    ensures |refs[c].list.slots| >= if refs[c].name.Some? then 1 else 2
  {
  }

  /** Gives the relation its new path, and the second one too. */
  method RenameBoth(h: Handle, t: Triple, p: Path, l: PathLimits, second: Option<Second>)
    returns (status: Status, accepted: bool)
    requires IsPath(p) && AreLimits(l) && AreRelations(h.names, t, second) && Distinct(h.log)
    modifies h
    ensures (h.Current(), status) == BothPaths(old(h.Current()), t, p, l, second)
    ensures accepted <==> AfterReplace(old(h.Current()), t, p, l).1 == Ok
  {
    hide AfterReplace, Distinct;
    NamesStay(h.Current(), t, p, l);
    StillDistinct(h.Current(), t, p, l);
    status := h.ReplaceRelation(t, p, l);
    accepted := status == Ok;
    if accepted && second.Some? {
      status := h.ReplaceRelation(second.value.relation, p, second.value.limits);
    }
  }

  /** The names move exactly if a relation took the path that was named otherwise. */
  lemma BothMove(s: State, t: Triple, p: Path, l: PathLimits, second: Option<Second>)
    requires IsPath(p) && AreLimits(l) && AreRelations(s.names, t, second)
    ensures var after := BothPaths(s, t, p, l, second).0;
            && after.failed == s.failed
            && (AfterReplace(s, t, p, l).1 == Ok ==> (after.names != s.names <==> Moves(s, t, p, l, second)))
            && (AfterReplace(s, t, p, l).1 != Ok ==> after == s)
  {
    hide AfterReplace;
    NamesStay(s, t, p, l);
    NamesMove(s, t, p, l);
    NamesTaken(s, t, p, l);
    var first := AfterReplace(s, t, p, l);
    if first.1 != Ok {
      RefusedReplace(s, t, p, l);
    } else if second.Some? {
      var u := second.value.relation;
      NamesStay(first.0, u, p, second.value.limits);
      NamesMove(first.0, u, p, second.value.limits);
      NamesTaken(first.0, u, p, second.value.limits);
      assert t[0] in t && t[1] in t && t[2] in t && u[0] in u && u[1] in u && u[2] in u;
    }
  }

  lemma NamesOnly(s: State, t: Triple, p: Path, l: PathLimits)
    requires IsPath(p) && AreLimits(l) && SlotsNamed(s.names, t)
    ensures var r := AfterReplace(s, t, p, l);
            if r.1 == Ok then r.0.names == NamesAfter(s.names, t, p, 3) || (r.0 == s && !Differs(s.names, t, p))
            else r.0 == s
  {
    hide Installed, PreparedPath, CommonGroup, MaxGroup, NamesAfter, LogMemoryLasts;
  }

  /** A path that is taken changes the slots of its relation only. */
  lemma NamesTaken(s: State, t: Triple, p: Path, l: PathLimits)
    requires IsPath(p) && AreLimits(l) && SlotsNamed(s.names, t)
    ensures AfterReplace(s, t, p, l).0.names.Keys == s.names.Keys
    ensures forall x | x in s.names && x !in t :: AfterReplace(s, t, p, l).0.names[x] == s.names[x]
    ensures AfterReplace(s, t, p, l).1 == Ok
        ==> forall k | 0 <= k < 3 :: AfterReplace(s, t, p, l).0.names[t[k]] == p.values[k]
  {
    hide AfterReplace, NamesAfter;
    NamesStay(s, t, p, l);
    NamesOnly(s, t, p, l);
    NamesAfterPath(s.names, t, p);
    assert t[0] in t && t[1] in t && t[2] in t;
  }

  /** A refused path leaves names and log as they were. */
  lemma RefusedReplace(s: State, t: Triple, p: Path, l: PathLimits)
    requires IsPath(p) && AreLimits(l) && SlotsNamed(s.names, t) && AfterReplace(s, t, p, l).1 != Ok
    ensures AfterReplace(s, t, p, l).0 == s
  {
  }

  /** An accepted path moves a name exactly if it is not the one the relation has. */
  lemma NamesMove(s: State, t: Triple, p: Path, l: PathLimits)
    requires IsPath(p) && AreLimits(l) && SlotsNamed(s.names, t)
    ensures AfterReplace(s, t, p, l).0.names != s.names <==> AfterReplace(s, t, p, l).1 == Ok && Differs(s.names, t, p)
    ensures AfterReplace(s, t, p, l).0.failed == s.failed
  {
    hide Installed, PreparedPath, CommonGroup, MaxGroup;
    NamesAt(s.names, t, p);
  }

  lemma NamesStep(names: map<nat, string>, t: Triple, p: Path, k: nat)
    requires IsPath(p) && 0 < k <= 3
    ensures NamesAfter(names, t, p, k) == NamesAfter(names, t, p, k - 1)[t[k - 1] := p.values[k - 1]]
    ensures NamesAfter(names, t, p, 0) == names
  {
  }

  lemma NamesAt(names: map<nat, string>, t: Triple, p: Path)
    requires IsPath(p) && SlotsNamed(names, t)
    ensures NamesAfter(names, t, p, 3) != names <==> Differs(names, t, p)
  {
    var one, two, three := NamesAfter(names, t, p, 1), NamesAfter(names, t, p, 2), NamesAfter(names, t, p, 3);
    NamesStep(names, t, p, 1);
    NamesStep(names, t, p, 2);
    NamesStep(names, t, p, 3);
    assert three[t[0]] == p.values[0] && three[t[1]] == p.values[1] && three[t[2]] == p.values[2];
    if !Differs(names, t, p) {
      assert one == names;
      assert two == one;
      assert three == two;
    }
  }

  /** Without a qualified reference planning has nothing to fail at. */
  lemma {:induction false} NothingToPlan(m: Q.Memory, refs: seq<Q.Reference>, bindings: seq<nat>, parts: seq<string>,
                                         lookups: seq<Status>, budget: nat, n: nat)
    requires n <= |bindings| == |lookups| && Q.AreReferences(refs, bindings) && !IsQualified(refs, bindings)
    ensures Q.Cost(m, refs, bindings, parts, n) == 0 && Q.CanPlanAll(m, refs, bindings, parts, lookups, budget, n)
    decreases n
  {
    if n > 0 {
      NothingToPlan(m, refs, bindings, parts, lookups, budget, n - 1);
    }
  }

  // ----- an input that is left half renamed

  /** Relation t becomes u, and t.a is bound to it. */
  const OLD_PATH := State(map[0 := "", 1 := "", 2 := "t"], [], false)
  const NEW_PATH := Path(["", "", "u"], [None, None, None])
  const COLUMN := [Q.Reference(None, Q.Array(2, [Some(0), Some(1)]))]
  const NODES := Q.Memory(map[0 := Q.Text("t"), 1 := Q.Text("a")], {2}, map[])
  const WILLING := Limits(PathLimits(Ok, [None, None, None], [true, true, true], true), Ok, Ok, [Ok], Ok, Ok)

  /** With three allocations, for the array of plans, the array of nodes and the
      qualifier's node, the rename succeeds.  With fewer the relation is called u
      while its column is still qualified with t. */
  lemma PathBesideOldQualifiers(budget: nat)
    ensures Q.Balance(Q.Foreign({}, {}, {}), NODES, COLUMN, [])
    ensures var t: Triple := [0, 1, 2];
            && Accepts(OLD_PATH, COLUMN, t, NEW_PATH, None, [0], WILLING) && Differs(OLD_PATH.names, t, NEW_PATH)
            && AfterReplace(OLD_PATH, t, NEW_PATH, WILLING.path).0.names == map[0 := "", 1 := "", 2 := "u"]
    ensures CanRewrite(NODES, COLUMN, NEW_PATH, [0], WILLING, budget) <==> budget >= 3
  {
    hide *;
    ExampleBalances();
    ExampleAccepted();
    ExampleRewritten(budget);
  }

  lemma ExampleBalances()
    ensures Q.Balance(Q.Foreign({}, {}, {}), NODES, COLUMN, [])
  {
    forall x: nat
      ensures Q.BalancedAt(Q.Foreign({}, {}, {}), NODES, COLUMN, [], x)
    {
      var slots := COLUMN[0].list.slots;
      assert COLUMN[..0] == [] && slots[..1] == [Some(0)];
      assert Q.InSlots(slots, x) == Q.InSlots([Some(0)], x) + Q.Is(Some(1), x);
      assert Q.InSlots([Some(0)], x) == Q.Is(Some(0), x);
    }
  }

  lemma ExampleAccepted()
    ensures var t: Triple := [0, 1, 2];
            && Accepts(OLD_PATH, COLUMN, t, NEW_PATH, None, [0], WILLING) && Differs(OLD_PATH.names, t, NEW_PATH)
            && AfterReplace(OLD_PATH, t, NEW_PATH, WILLING.path).0.names == map[0 := "", 1 := "", 2 := "u"]
  {
    var t: Triple := [0, 1, 2];
    hide Installed, NamesAfter, PreparedPath, AfterReplace, CommonGroup, MaxGroup;
    ExampleGroups();
    FirstPath(OLD_PATH, t, NEW_PATH, WILLING.path);
    ExampleNames();
  }

  lemma ExampleNames()
    ensures var t: Triple := [0, 1, 2];
            NamesAfter(OLD_PATH.names, t, NEW_PATH, 3) == map[0 := "", 1 := "", 2 := "u"]
  {
    var t: Triple := [0, 1, 2];
    hide NamesAfter;
    NamesStep(OLD_PATH.names, t, NEW_PATH, 1);
    NamesStep(OLD_PATH.names, t, NEW_PATH, 2);
    NamesStep(OLD_PATH.names, t, NEW_PATH, 3);
  }

  /** A new path for a relation without a group is taken if everything can be had. */
  lemma FirstPath(s: State, t: Triple, p: Path, l: PathLimits)
    requires IsPath(p) && AreLimits(l) && SlotsNamed(s.names, t) && Differs(s.names, t, p)
    requires l.planning == Ok && l.valueMemory && forall k | 0 <= k < 3 :: l.logMemory[k]
    requires var log := PreparedPath(s.log, s.names, t, 3);
             CommonGroup(log, t, 3) == Some(0) && MaxGroup(log, |log|) == 0
    ensures AfterReplace(s, t, p, l).1 == Ok && AfterReplace(s, t, p, l).0.names == NamesAfter(s.names, t, p, 3)
  {
    hide Installed, NamesAfter, PreparedPath, CommonGroup, MaxGroup, Entry;
  }

  lemma ExampleGroups()
    ensures var t: Triple := [0, 1, 2];
            var log := PreparedPath(OLD_PATH.log, OLD_PATH.names, t, 3);
            CommonGroup(log, t, 3) == Some(0) && MaxGroup(log, |log|) == 0
  {
    var t: Triple := [0, 1, 2];
    PathSteps([], OLD_PATH.names, t);
    var log := PreparedPath([], OLD_PATH.names, t, 3);
    NoGroups(OLD_PATH.names, t, 1);
    NoGroups(OLD_PATH.names, t, 2);
    NoGroups(OLD_PATH.names, t, 3);
    Ungrouped(log, t, 3, |log|);
  }

  lemma NoGroups(names: map<nat, string>, t: Triple, k: nat)
    requires 0 < k <= 3 && SlotsNamed(names, t)
    requires forall e | e in PreparedPath([], names, t, k - 1) :: e.group == 0
    ensures forall e | e in PreparedPath([], names, t, k) :: e.group == 0
  {
  }

  lemma Ungrouped(log: Log, t: Triple, k: nat, n: nat)
    requires k <= 3 && n <= |log| && forall e | e in log :: e.group == 0
    ensures CommonGroup(log, t, k) == Some(0) && MaxGroup(log, n) == 0
  {
    if k > 0 {
      Ungrouped(log, t, k - 1, n);
      EntryIn(log, t[k - 1]);
    } else if n > 0 {
      Ungrouped(log, t, k, n - 1);
    }
  }

  lemma EntryIn(log: Log, x: nat)
    ensures Entry(log, x).Some? ==> Entry(log, x).value in log
  {
  }

  lemma ExampleRewritten(budget: nat)
    ensures CanRewrite(NODES, COLUMN, NEW_PATH, [0], WILLING, budget) <==> budget >= 3
  {
    var r, parts := COLUMN[0], ["u"];
    assert !Q.IsUnqualified(COLUMN[[0][0]]);
    assert PathParts(NEW_PATH) == parts;
    assert Q.IsBound(NODES, r) && !Q.Moves(NODES, r, parts) && Q.PlanCost(NODES, r, parts) == 2;
    assert Q.OpensPlans(COLUMN, [0], 0);
    assert Q.Cost(NODES, COLUMN, [0], parts, 1) == Q.Cost(NODES, COLUMN, [0], parts, 0) + 3;
  }
}

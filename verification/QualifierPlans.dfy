/** Rewriting the qualifiers of bound column references and assignment targets in
    three phases, prepare, apply and clear, with every allocated node, array and
    string accounted for. */
module QualifierPlans {
  import opened Wrappers

  datatype NodeValue = Text(text: string) | Star | Other

  type Slots = seq<Option<nat>>

  /** A node array: its address and the addresses of its nodes. */
  datatype Array = Array(id: nat, slots: Slots)

  /** A column reference has all its parts in an array.  A qualified assignment
      target has the first part in a string and the others in an array. */
  datatype Reference = Reference(name: Option<nat>, list: Array)

  /** One reference's plan.  Before it is applied it holds the next name and array,
      afterwards the previous ones; the column's own node, last in both arrays, is
      held by neither. */
  datatype Plan = Plan(target: nat, previous: Reference, nextName: Option<nat>, nextArray: Option<Array>,
                       spelling: Option<nat>, applied: bool)

  const EMPTY := Plan(0, Reference(None, Array(0, [])), None, None, None, false)

  function Min(a: nat, b: nat): nat {
    if a < b then a else b
  }

  // ----- how many holders an address has

  function Is(id: Option<nat>, x: nat): nat {
    if id == Some(x) then 1 else 0
  }

  function InSlots(s: Slots, x: nat): nat
    decreases |s|
  {
    if s == [] then 0 else InSlots(s[..|s| - 1], x) + Is(s[|s| - 1], x)
  }

  function NodeInReferences(refs: seq<Reference>, x: nat): nat
    decreases |refs|
  {
    if refs == [] then 0 else NodeInReferences(refs[..|refs| - 1], x) + InSlots(refs[|refs| - 1].list.slots, x)
  }

  function ArrayInReferences(refs: seq<Reference>, x: nat): nat
    decreases |refs|
  {
    if refs == [] then 0 else ArrayInReferences(refs[..|refs| - 1], x) + Is(Some(refs[|refs| - 1].list.id), x)
  }

  function TextInReferences(refs: seq<Reference>, x: nat): nat
    decreases |refs|
  {
    if refs == [] then 0 else TextInReferences(refs[..|refs| - 1], x) + Is(refs[|refs| - 1].name, x)
  }

  function HeldArray(p: Plan): Option<Array> {
    if p.applied then Some(p.previous.list) else p.nextArray
  }

  function HeldArrayId(p: Plan): Option<nat> {
    if HeldArray(p).Some? then Some(HeldArray(p).value.id) else None
  }

  /** All nodes of the held array but the last. */
  function HeldSlots(p: Plan): Slots {
    var a := HeldArray(p);
    if a.Some? && a.value.slots != [] then a.value.slots[..|a.value.slots| - 1] else []
  }

  function HeldName(p: Plan): Option<nat> {
    if p.applied then p.previous.name else p.nextName
  }

  function NodeInPlans(plans: seq<Plan>, x: nat): nat
    decreases |plans|
  {
    if plans == [] then 0 else NodeInPlans(plans[..|plans| - 1], x) + InSlots(HeldSlots(plans[|plans| - 1]), x)
  }

  function ArrayInPlans(plans: seq<Plan>, x: nat): nat
    decreases |plans|
  {
    if plans == [] then 0 else ArrayInPlans(plans[..|plans| - 1], x) + Is(HeldArrayId(plans[|plans| - 1]), x)
  }

  function TextInPlan(p: Plan, x: nat): nat {
    Is(p.spelling, x) + Is(HeldName(p), x)
  }

  function TextInPlans(plans: seq<Plan>, x: nat): nat
    decreases |plans|
  {
    if plans == [] then 0 else TextInPlans(plans[..|plans| - 1], x) + TextInPlan(plans[|plans| - 1], x)
  }

  // ----- changing one holder

  lemma {:induction false} SlotsUpdate(s: Slots, i: nat, id: Option<nat>, x: nat)
    requires i < |s|
    ensures InSlots(s[i := id], x) + Is(s[i], x) == InSlots(s, x) + Is(id, x)
    decreases |s|
  {
    var n, u := |s| - 1, s[i := id];
    if i < n {
      SlotsUpdate(s[..n], i, id, x);
      assert u[..n] == s[..n][i := id];
    } else {
      assert u[..n] == s[..n];
    }
  }

  lemma {:induction false} NoneInSlots(s: Slots, x: nat)
    requires forall i | 0 <= i < |s| :: s[i] == None
    ensures InSlots(s, x) == 0
    decreases |s|
  {
    if s != [] {
      NoneInSlots(s[..|s| - 1], x);
    }
  }

  lemma {:induction false} SlotCounts(s: Slots, i: nat)
    requires i < |s| && s[i].Some?
    ensures InSlots(s, s[i].value) >= 1
    decreases |s|
  {
    if i < |s| - 1 {
      SlotCounts(s[..|s| - 1], i);
    }
  }

  lemma {:induction false} ReferencesUpdate(refs: seq<Reference>, c: nat, r: Reference, x: nat)
    requires c < |refs|
    ensures NodeInReferences(refs[c := r], x) + InSlots(refs[c].list.slots, x)
         == NodeInReferences(refs, x) + InSlots(r.list.slots, x)
    ensures ArrayInReferences(refs[c := r], x) + Is(Some(refs[c].list.id), x)
         == ArrayInReferences(refs, x) + Is(Some(r.list.id), x)
    ensures TextInReferences(refs[c := r], x) + Is(refs[c].name, x) == TextInReferences(refs, x) + Is(r.name, x)
    decreases |refs|
  {
    var n, u := |refs| - 1, refs[c := r];
    if c < n {
      ReferencesUpdate(refs[..n], c, r, x);
      assert u[..n] == refs[..n][c := r];
    } else {
      assert u[..n] == refs[..n];
    }
  }

  lemma {:induction false} ReferenceCounts(refs: seq<Reference>, c: nat, x: nat)
    requires c < |refs|
    ensures NodeInReferences(refs, x) >= InSlots(refs[c].list.slots, x)
    ensures TextInReferences(refs, x) >= Is(refs[c].name, x)
    decreases |refs|
  {
    if c < |refs| - 1 {
      ReferenceCounts(refs[..|refs| - 1], c, x);
    }
  }

  lemma {:induction false} PlansUpdate(plans: seq<Plan>, k: nat, p: Plan, x: nat)
    requires k < |plans|
    ensures NodeInPlans(plans[k := p], x) + InSlots(HeldSlots(plans[k]), x)
         == NodeInPlans(plans, x) + InSlots(HeldSlots(p), x)
    ensures ArrayInPlans(plans[k := p], x) + Is(HeldArrayId(plans[k]), x)
         == ArrayInPlans(plans, x) + Is(HeldArrayId(p), x)
    ensures TextInPlans(plans[k := p], x) + TextInPlan(plans[k], x) == TextInPlans(plans, x) + TextInPlan(p, x)
    decreases |plans|
  {
    hide InSlots, HeldSlots, HeldArrayId, TextInPlan;
    var n, u := |plans| - 1, plans[k := p];
    if k < n {
      PlansUpdate(plans[..n], k, p, x);
      assert u[..n] == plans[..n][k := p];
    } else {
      assert u[..n] == plans[..n];
    }
  }

  lemma {:induction false} PlanCounts(plans: seq<Plan>, k: nat, x: nat)
    requires k < |plans|
    ensures NodeInPlans(plans, x) >= InSlots(HeldSlots(plans[k]), x)
    ensures ArrayInPlans(plans, x) >= Is(HeldArrayId(plans[k]), x)
    ensures TextInPlans(plans, x) >= TextInPlan(plans[k], x)
    decreases |plans|
  {
    if k < |plans| - 1 {
      PlanCounts(plans[..|plans| - 1], k, x);
    }
  }

  lemma {:induction false} EmptyHoldsNothing(plans: seq<Plan>, x: nat)
    requires forall k | 0 <= k < |plans| :: plans[k] == EMPTY
    ensures NodeInPlans(plans, x) == ArrayInPlans(plans, x) == TextInPlans(plans, x) == 0
    decreases |plans|
  {
    if plans != [] {
      EmptyHoldsNothing(plans[..|plans| - 1], x);
    }
  }

  function Has(s: set<nat>, x: nat): nat {
    if x in s then 1 else 0
  }

  /** A bound column reference: string nodes for all qualifiers, and a string or a
      star for the column.  A bound assignment target: a name, then string nodes. */
  predicate IsBound(m: Memory, r: Reference) {
    var slots := r.list.slots;
    if r.name.None? then
      && |slots| >= 2 && (forall i | 0 <= i < |slots| - 1 :: IsTextAt(m, slots[i]))
      && slots[|slots| - 1].Some? && slots[|slots| - 1].value in m.nodes && !m.nodes[slots[|slots| - 1].value].Other?
    else
      && r.name.value in m.texts && m.texts[r.name.value] != ""
      && |slots| >= 1 && forall i | 0 <= i < |slots| :: IsTextAt(m, slots[i])
  }

  function QualifierCount(r: Reference): nat {
    if r.name.None? then if r.list.slots == [] then 0 else |r.list.slots| - 1 else |r.list.slots|
  }

  /** The node of the column itself. */
  function Column(r: Reference): Option<nat> {
    if r.list.slots == [] then None else r.list.slots[|r.list.slots| - 1]
  }

  /** The last parts of a relation path, as many as the reference had qualifiers. */
  function NewQualifiers(r: Reference, parts: seq<string>): (q: seq<string>)
    ensures |q| == Min(QualifierCount(r), |parts|)
  {
    parts[|parts| - Min(QualifierCount(r), |parts|)..]
  }

  /** An assignment to a bare column is bound but has nothing to rewrite. */
  predicate IsUnqualified(r: Reference) {
    r.name.Some? && r.list.slots == []
  }

  predicate AreReferences(refs: seq<Reference>, bindings: seq<nat>) {
    forall i | 0 <= i < |bindings| :: bindings[i] < |refs|
  }

  predicate AreDistinct(s: seq<nat>) {
    forall i, j | 0 <= i < j < |s| :: s[i] != s[j]
  }

  /** The bound references that have qualifiers, in order. */
  function Qualifying(refs: seq<Reference>, bindings: seq<nat>, n: nat): seq<nat>
    requires n <= |bindings| && AreReferences(refs, bindings)
  {
    if n == 0 then []
    else Qualifying(refs, bindings, n - 1) + if IsUnqualified(refs[bindings[n - 1]]) then [] else [bindings[n - 1]]
  }

  /** The rewritten reference names the last parts of the new path, as many as it
      had qualifiers, in front of the node it had for its column. */
  predicate Rewritten(m: Memory, before: Reference, after: Reference, parts: seq<string>) {
    && after.name.Some? == before.name.Some?
    && Qualified(m, after, NewQualifiers(before, parts), Column(before))
  }

  /** The qualifier that stands j places in front of the column; a target's first one is its name. */
  function InFront(m: Memory, r: Reference, j: nat): Option<string> {
    var i := |r.list.slots| - 2 - j;
    if i >= 0 then if IsTextAt(m, r.list.slots[i]) then Some(m.nodes[r.list.slots[i].value].text) else None
    else if i == -1 && r.name.Some? && r.name.value in m.texts then Some(m.texts[r.name.value])
    else None
  }

  /** Counted from the column, the qualifiers are the parts of the path from its end, until the
      path or the places that the reference had for qualifiers run out; the column stays. */
  predicate Requalified(m: Memory, before: Reference, after: Reference, parts: seq<string>) {
    var room := if before.name.Some? then |before.list.slots| else |before.list.slots| - 1;
    var count := if after.name.Some? then |after.list.slots| else |after.list.slots| - 1;
    && after.name.Some? == before.name.Some?
    && count == (if |parts| < room then |parts| else room)
    && after.list.slots != [] && before.list.slots != []
    && after.list.slots[|after.list.slots| - 1] == before.list.slots[|before.list.slots| - 1]
    && forall j | 0 <= j < count :: InFront(m, after, j) == Some(parts[|parts| - 1 - j])
  }

  /** The last parts, put before the column in order, are the parts counted from its end. */
  lemma RewrittenMeans(m: Memory, before: Reference, after: Reference, parts: seq<string>)
    requires Rewritten(m, before, after, parts) && before.list.slots != []
    ensures Requalified(m, before, after, parts)
  {
    hide IsTextAt, NewQualifiers;
    var next := NewQualifiers(before, parts);
    forall j | 0 <= j < |next|
      ensures next[|next| - 1 - j] == parts[|parts| - 1 - j]
      ensures InFront(m, after, j) == Some(parts[|parts| - 1 - j])
    {
      LastParts(before, parts, j);
      QualifierInFront(m, after, next, Column(before), j);
    }
  }

  lemma LastParts(r: Reference, parts: seq<string>, j: nat)
    requires j < |NewQualifiers(r, parts)|
    ensures |NewQualifiers(r, parts)| <= |parts|
    ensures NewQualifiers(r, parts)[|NewQualifiers(r, parts)| - 1 - j] == parts[|parts| - 1 - j]
  {
  }

  lemma QualifierInFront(m: Memory, r: Reference, parts: seq<string>, last: Option<nat>, j: nat)
    requires Qualified(m, r, parts, last) && j < |parts|
    ensures InFront(m, r, j) == Some(parts[|parts| - 1 - j])
  {
    hide IsTextAt;
    if r.name.Some? && j < |parts| - 1 {
      assert parts[1..][|parts| - 2 - j] == parts[|parts| - 1 - j];
    }
  }

  predicate AllReady(m: Memory, refs: seq<Reference>, plans: seq<Plan>, targets: seq<nat>, parts: seq<string>) {
    && |plans| == |targets|
    && forall k | 0 <= k < |plans| :: targets[k] < |refs| && Ready(m, refs, plans[k], targets[k], parts)
  }

  predicate HoldsNothing(p: Plan) {
    !p.applied && p.nextArray.None? && p.nextName.None? && p.spelling.None?
  }

  /** A finished plan: the next name and array spell the new qualifiers in front of
      the same column node. */
  predicate Ready(m: Memory, refs: seq<Reference>, p: Plan, c: nat, parts: seq<string>)
    requires c < |refs|
  {
    && p.target == c && p.previous == refs[c] && !p.applied && p.nextArray.Some?
    && p.nextName.Some? == refs[c].name.Some?
    && refs[c].list.slots != []
    && Qualified(m, Reference(p.nextName, p.nextArray.value), NewQualifiers(refs[c], parts), Column(refs[c]))
  }

  // ----- the store

  /** What is allocated outside the references at hand. */
  datatype Foreign = Foreign(nodes: set<nat>, arrays: set<nat>, texts: set<nat>)

  datatype Memory = Memory(nodes: map<nat, NodeValue>, arrays: set<nat>, texts: map<nat, string>)

  /** An address has exactly one holder if it is allocated and none if it is not:
      a reference, a plan, or the rest of the tree. */
  ghost predicate BalancedAt(f: Foreign, m: Memory, refs: seq<Reference>, plans: seq<Plan>, x: nat) {
    && Has(m.nodes.Keys, x) == Has(f.nodes, x) + NodeInReferences(refs, x) + NodeInPlans(plans, x)
    && Has(m.arrays, x) == Has(f.arrays, x) + ArrayInReferences(refs, x) + ArrayInPlans(plans, x)
    && Has(m.texts.Keys, x) == Has(f.texts, x) + TextInReferences(refs, x) + TextInPlans(plans, x)
  }

  ghost predicate Balance(f: Foreign, m: Memory, refs: seq<Reference>, plans: seq<Plan>) {
    forall x: nat :: BalancedAt(f, m, refs, plans, x)
  }

  /** Nothing that was there changed or went away. */
  predicate Extends(before: Memory, after: Memory) {
    && (forall id | id in before.nodes :: id in after.nodes && after.nodes[id] == before.nodes[id])
    && (forall id | id in before.texts :: id in after.texts && after.texts[id] == before.texts[id])
  }

  // ----- what a reference says

  predicate Readable(m: Memory, r: Reference) {
    && (r.name.Some? ==> r.name.value in m.texts)
    && forall i | 0 <= i < |r.list.slots| :: r.list.slots[i].Some? ==> r.list.slots[i].value in m.nodes
  }

  lemma BalancedIsReadable(f: Foreign, m: Memory, refs: seq<Reference>, plans: seq<Plan>, c: nat)
    requires Balance(f, m, refs, plans) && c < |refs|
    ensures Readable(m, refs[c])
  {
    var r := refs[c];
    if r.name.Some? {
      assert BalancedAt(f, m, refs, plans, r.name.value);
      ReferenceCounts(refs, c, r.name.value);
    }
    forall i | 0 <= i < |r.list.slots| && r.list.slots[i].Some?
      ensures r.list.slots[i].value in m.nodes
    {
      var x := r.list.slots[i].value;
      assert BalancedAt(f, m, refs, plans, x);
      ReferenceCounts(refs, c, x);
      SlotCounts(r.list.slots, i);
    }
  }

  predicate IsTextAt(m: Memory, slot: Option<nat>) {
    slot.Some? && slot.value in m.nodes && m.nodes[slot.value].Text?
  }

  /** The slots hold string nodes with these texts, and then one more node. */
  predicate Spells(m: Memory, slots: Slots, parts: seq<string>, last: Option<nat>) {
    && |slots| == |parts| + 1 && slots[|parts|] == last
    && forall i | 0 <= i < |parts| :: IsTextAt(m, slots[i]) && m.nodes[slots[i].value].text == parts[i]
  }

  /** The reference's qualifiers are these parts, and its column is this node. */
  predicate Qualified(m: Memory, r: Reference, parts: seq<string>, last: Option<nat>) {
    if r.name.None? then Spells(m, r.list.slots, parts, last)
    else
      && parts != [] && r.name.value in m.texts && m.texts[r.name.value] == parts[0]
      && Spells(m, r.list.slots, parts[1..], last)
  }

  // ----- what planning takes

  /** The column's position in the path changes, and it is a name, not a star. */
  predicate Moves(m: Memory, r: Reference, parts: seq<string>) {
    |NewQualifiers(r, parts)| != QualifierCount(r) && IsTextAt(m, Column(r))
  }

  function FillStatus(nodes: nat, moves: bool, lookup: Status, budget: nat): Status {
    if budget < nodes then NoMemory
    else if !moves then Ok
    else if lookup != Ok then lookup
    else if budget == nodes then NoMemory
    else Ok
  }

  /** The allocations of a finished plan: the array, a node or the name for every
      qualifier, and the column's spelling where its position changes. */
  function PlanCost(m: Memory, r: Reference, parts: seq<string>): nat {
    |NewQualifiers(r, parts)| + 1 + if Moves(m, r, parts) then 1 else 0
  }

  function PlanStatus(m: Memory, r: Reference, parts: seq<string>, lookup: Status, budget: nat): Status {
    if !IsBound(m, r) || parts == [] then InternalError
    else if budget <= |NewQualifiers(r, parts)| then NoMemory
    else FillStatus(0, Moves(m, r, parts), lookup, budget - |NewQualifiers(r, parts)| - 1)
  }

  /** A reference can be planned, given enough memory. */
  predicate CanPlan(m: Memory, r: Reference, parts: seq<string>, lookup: Status) {
    IsBound(m, r) && parts != [] && (Moves(m, r, parts) ==> lookup == Ok)
  }

  /** Some of the first n bindings is a qualified target, or a column. */
  predicate HasPlans(refs: seq<Reference>, bindings: seq<nat>, n: nat, named: bool)
    requires n <= |bindings| && AreReferences(refs, bindings)
  {
    exists j | 0 <= j < n :: !IsUnqualified(refs[bindings[j]]) && refs[bindings[j]].name.Some? == named
  }

  /** At the first column and at the first qualified target an array of plans is
      allocated. */
  predicate OpensPlans(refs: seq<Reference>, bindings: seq<nat>, i: nat)
    requires i < |bindings| && AreReferences(refs, bindings)
  {
    !HasPlans(refs, bindings, i, refs[bindings[i]].name.Some?)
  }

  function BindingCost(m: Memory, refs: seq<Reference>, bindings: seq<nat>, parts: seq<string>, i: nat): nat
    requires i < |bindings| && AreReferences(refs, bindings)
  {
    if IsUnqualified(refs[bindings[i]]) then 0
    else PlanCost(m, refs[bindings[i]], parts) + if OpensPlans(refs, bindings, i) then 1 else 0
  }

  /** The allocations of the plans for the first n bindings. */
  function Cost(m: Memory, refs: seq<Reference>, bindings: seq<nat>, parts: seq<string>, n: nat): nat
    requires n <= |bindings| && AreReferences(refs, bindings)
  {
    if n == 0 then 0
    else Cost(m, refs, bindings, parts, n - 1) + BindingCost(m, refs, bindings, parts, n - 1)
  }

  function BindingStatus(m: Memory, refs: seq<Reference>, bindings: seq<nat>, parts: seq<string>,
                         lookups: seq<Status>, budget: nat, i: nat): Status
    requires i < |bindings| == |lookups| && AreReferences(refs, bindings)
  {
    var r := refs[bindings[i]];
    if IsUnqualified(r) then Ok
    else if !OpensPlans(refs, bindings, i) then PlanStatus(m, r, parts, lookups[i], budget)
    else if budget == 0 then NoMemory
    else PlanStatus(m, r, parts, lookups[i], budget - 1)
  }

  /** How planning the first n bindings ends: at the first that cannot be planned. */
  function PlansStatus(m: Memory, refs: seq<Reference>, bindings: seq<nat>, parts: seq<string>,
                       lookups: seq<Status>, budget: nat, n: nat): Status
    requires n <= |bindings| == |lookups| && AreReferences(refs, bindings)
  {
    if n == 0 then Ok
    else
      var status, spent := PlansStatus(m, refs, bindings, parts, lookups, budget, n - 1),
                           Cost(m, refs, bindings, parts, n - 1);
      if status != Ok then status
      else BindingStatus(m, refs, bindings, parts, lookups, if spent <= budget then budget - spent else 0, n - 1)
  }

  /** Every bound reference with qualifiers is well formed, the path is not empty,
      the spellings of the columns that move are found, and memory lasts. */
  predicate CanPlanAll(m: Memory, refs: seq<Reference>, bindings: seq<nat>, parts: seq<string>,
                       lookups: seq<Status>, budget: nat, n: nat)
    requires n <= |bindings| == |lookups| && AreReferences(refs, bindings)
  {
    && (forall i | 0 <= i < n :: IsUnqualified(refs[bindings[i]]) || CanPlan(m, refs[bindings[i]], parts, lookups[i]))
    && Cost(m, refs, bindings, parts, n) <= budget
  }

  lemma {:induction false} PlannedExactly(m: Memory, refs: seq<Reference>, bindings: seq<nat>, parts: seq<string>,
                                          lookups: seq<Status>, budget: nat, n: nat)
    requires n <= |bindings| == |lookups| && AreReferences(refs, bindings)
    ensures PlansStatus(m, refs, bindings, parts, lookups, budget, n) == Ok
       <==> CanPlanAll(m, refs, bindings, parts, lookups, budget, n)
    decreases n
  {
    hide IsBound, Moves, OpensPlans, IsUnqualified, NewQualifiers;
    if n > 0 {
      PlannedExactly(m, refs, bindings, parts, lookups, budget, n - 1);
    }
  }

  /** The reference of a binding is well formed: string nodes for the qualifiers of a
      column, and a string or a star for the column itself; for a target a name that
      is not empty, then string nodes only. */
  ghost predicate WellMade(m: Memory, r: Reference) {
    var slots := r.list.slots;
    if r.name.Some? then
      && r.name.value in m.texts && m.texts[r.name.value] != ""
      && slots != [] && forall i | 0 <= i < |slots| :: IsTextAt(m, slots[i])
    else
      && |slots| >= 2 && (forall i | 0 <= i < |slots| - 1 :: IsTextAt(m, slots[i]))
      && (IsTextAt(m, slots[|slots| - 1])
          || (&& slots[|slots| - 1].Some? && slots[|slots| - 1].value in m.nodes
              && m.nodes[slots[|slots| - 1].value] == Star))
  }

  /** The reference has more qualifiers than the path has parts, and its column is no star. */
  ghost predicate LosesPlace(m: Memory, r: Reference, parts: seq<string>) {
    var slots := r.list.slots;
    slots != [] && |parts| < (if r.name.Some? then |slots| else |slots| - 1) && IsTextAt(m, slots[|slots| - 1])
  }

  /** All bindings can be planned exactly if the path has a part, each reference is a bare
      target or well made with a spelling found where its column loses its place, and the
      memory lasts. */
  lemma PlannableMeans(m: Memory, refs: seq<Reference>, bindings: seq<nat>, parts: seq<string>,
                       lookups: seq<Status>, budget: nat, n: nat)
    requires n <= |bindings| == |lookups| && AreReferences(refs, bindings)
    ensures CanPlanAll(m, refs, bindings, parts, lookups, budget, n)
       <==> && Cost(m, refs, bindings, parts, n) <= budget
            && forall i | 0 <= i < n ::
                 || (refs[bindings[i]].name.Some? && refs[bindings[i]].list.slots == [])
                 || (&& parts != [] && WellMade(m, refs[bindings[i]])
                     && (LosesPlace(m, refs[bindings[i]], parts) ==> lookups[i] == Ok))
  {
    hide Cost, IsTextAt;
    forall r: Reference
      ensures IsBound(m, r) <==> WellMade(m, r)
      ensures IsBound(m, r) ==> (Moves(m, r, parts) <==> LosesPlace(m, r, parts))
    {
      OneIsWellMade(m, r, parts);
    }
    hide IsBound, WellMade, Moves, LosesPlace;
  }

  lemma OneIsWellMade(m: Memory, r: Reference, parts: seq<string>)
    ensures IsBound(m, r) <==> WellMade(m, r)
    ensures IsBound(m, r) ==> (Moves(m, r, parts) <==> LosesPlace(m, r, parts))
  {
  }

  /** Once the first i bindings are planned the next one is refused for want of an array of
      plans, as not well made or without a path, for want of memory, as its spelling is not
      found, or for want of memory for that, in this order. */
  lemma StatusMeans(m: Memory, refs: seq<Reference>, bindings: seq<nat>, parts: seq<string>,
                    lookups: seq<Status>, budget: nat, i: nat)
    requires i < |bindings| == |lookups| && AreReferences(refs, bindings)
    requires CanPlanAll(m, refs, bindings, parts, lookups, budget, i)
    ensures var r, left := refs[bindings[i]], budget - Cost(m, refs, bindings, parts, i);
            var plans := if exists j | 0 <= j < i ::
                              var q := refs[bindings[j]];
                              q.name.Some? == r.name.Some? && (q.name.Some? ==> q.list.slots != [])
                         then 0 else 1;
            PlansStatus(m, refs, bindings, parts, lookups, budget, i + 1)
            == if r.name.Some? && r.list.slots == [] then Ok
               else if left < plans then NoMemory
               else if !WellMade(m, r) || parts == [] then InternalError
               else
                 var room := if r.name.Some? then |r.list.slots| else |r.list.slots| - 1;
                 var needed := plans + (if room < |parts| then room else |parts|) + 1;
                 if left < needed then NoMemory
                 else if !LosesPlace(m, r, parts) then Ok
                 else if lookups[i] != Ok then lookups[i]
                 else if left == needed then NoMemory else Ok
  {
    PlannedExactly(m, refs, bindings, parts, lookups, budget, i);
    OneIsWellMade(m, refs[bindings[i]], parts);
    hide IsBound, WellMade, Cost, CanPlanAll;
  }

  /** What one binding allocates: a node or a name for each new qualifier, the array of
      nodes, a spelling where the column loses its place, and the array of plans where no
      binding of its sort came before. */
  lemma AllocationsCounted(m: Memory, refs: seq<Reference>, bindings: seq<nat>, parts: seq<string>, i: nat)
    requires i < |bindings| && AreReferences(refs, bindings) && WellMade(m, refs[bindings[i]])
    ensures var r := refs[bindings[i]];
            var room := if r.name.Some? then |r.list.slots| else |r.list.slots| - 1;
            Cost(m, refs, bindings, parts, i + 1) - Cost(m, refs, bindings, parts, i)
            == (if room < |parts| then room else |parts|) + 1
               + (if LosesPlace(m, r, parts) then 1 else 0)
               + if exists j | 0 <= j < i :: var q := refs[bindings[j]];
                                              q.name.Some? == r.name.Some? && (q.name.Some? ==> q.list.slots != [])
                 then 0 else 1
  {
    OneIsWellMade(m, refs[bindings[i]], parts);
    hide IsBound, WellMade;
  }

  /** Planning ends with the status of the first binding that cannot be planned. */
  lemma {:induction false} FailsEarly(m: Memory, refs: seq<Reference>, bindings: seq<nat>, parts: seq<string>,
                                      lookups: seq<Status>, budget: nat, n: nat, all: nat)
    requires n <= all <= |bindings| == |lookups| && AreReferences(refs, bindings)
    requires PlansStatus(m, refs, bindings, parts, lookups, budget, n) != Ok
    ensures PlansStatus(m, refs, bindings, parts, lookups, budget, all)
         == PlansStatus(m, refs, bindings, parts, lookups, budget, n)
    decreases all
  {
    if n < all {
      FailsEarly(m, refs, bindings, parts, lookups, budget, n, all - 1);
    }
  }

  /** Memory that grows changes nothing about a reference whose nodes are there. */
  lemma StaysPlannable(before: Memory, after: Memory, r: Reference, parts: seq<string>)
    requires Extends(before, after) && Readable(before, r)
    ensures IsBound(after, r) <==> IsBound(before, r)
    ensures Moves(after, r, parts) <==> Moves(before, r, parts)
  {
    var slots := r.list.slots;
    forall i | 0 <= i < |slots|
      ensures IsTextAt(after, slots[i]) <==> IsTextAt(before, slots[i])
    {
    }
  }

  // ----- the store

  /** The allocated nodes, arrays and strings.  `budget` is the number of
      allocations that still succeed. */
  class Store {
    var memory: Memory
    var refs: seq<Reference>
    var plans: seq<Plan>
    var mark: nat
    var budget: nat

    predicate Marked()
      reads this
    {
      && (forall id | id in memory.nodes :: id < mark)
      && (forall id | id in memory.arrays :: id < mark)
      && (forall id | id in memory.texts :: id < mark)
    }

    ghost predicate Balanced(f: Foreign)
      reads this
    {
      Marked() && Balance(f, memory, refs, plans)
    }

    method NewNode(text: string) returns (id: Option<nat>)
      requires Marked()
      modifies this`memory, this`mark, this`budget
      ensures Marked()
      ensures id.Some? <==> old(budget) > 0
      ensures budget == if old(budget) > 0 then old(budget) - 1 else 0
      ensures id.None? ==> memory == old(memory)
      ensures id.Some? ==> id.value !in old(memory).nodes
                           && memory == old(memory).(nodes := old(memory).nodes[id.value := Text(text)])
    {
      if budget == 0 {
        return None;
      }
      id := Some(mark);
      memory := memory.(nodes := memory.nodes[mark := Text(text)]);
      mark, budget := mark + 1, budget - 1;
    }

    /** A zeroed array. */
    method NewArray(n: nat) returns (a: Option<Array>)
      requires Marked()
      modifies this`memory, this`mark, this`budget
      ensures Marked()
      ensures a.Some? <==> old(budget) > 0
      ensures budget == if old(budget) > 0 then old(budget) - 1 else 0
      ensures a.None? ==> memory == old(memory)
      ensures a.Some? ==> && a.value.id !in old(memory).arrays && a.value.slots == seq(n, _ => None)
                          && memory == old(memory).(arrays := old(memory).arrays + {a.value.id})
    {
      if budget == 0 {
        return None;
      }
      a := Some(Array(mark, seq(n, _ => None)));
      memory := memory.(arrays := memory.arrays + {mark});
      mark, budget := mark + 1, budget - 1;
    }

    method NewText(text: string) returns (id: Option<nat>)
      requires Marked()
      modifies this`memory, this`mark, this`budget
      ensures Marked()
      ensures id.Some? <==> old(budget) > 0
      ensures budget == if old(budget) > 0 then old(budget) - 1 else 0
      ensures id.None? ==> memory == old(memory)
      ensures id.Some? ==> id.value !in old(memory).texts
                           && memory == old(memory).(texts := old(memory).texts[id.value := text])
    {
      if budget == 0 {
        return None;
      }
      id := Some(mark);
      memory := memory.(texts := memory.texts[mark := text]);
      mark, budget := mark + 1, budget - 1;
    }

    /** Freeing demands that the address is allocated: a second free is an error. */
    method FreeNode(id: Option<nat>)
      requires Marked() && (id.Some? ==> id.value in memory.nodes)
      modifies this`memory
      ensures Marked()
      ensures memory == old(memory).(nodes := old(memory).nodes - if id.Some? then {id.value} else {})
    {
      if id.Some? {
        memory := memory.(nodes := memory.nodes - {id.value});
      }
    }

    method FreeArray(id: nat)
      requires Marked() && id in memory.arrays
      modifies this`memory
      ensures Marked()
      ensures memory == old(memory).(arrays := old(memory).arrays - {id})
    {
      memory := memory.(arrays := memory.arrays - {id});
    }

    method FreeText(id: Option<nat>)
      requires Marked() && (id.Some? ==> id.value in memory.texts)
      modifies this`memory
      ensures Marked()
      ensures memory == old(memory).(texts := old(memory).texts - if id.Some? then {id.value} else {})
    {
      if id.Some? {
        memory := memory.(texts := memory.texts - {id.value});
      }
    }

    // ----- prepare

    /** Fills the zeroed next array of plan k with string nodes, and puts the
        column's node last. */
    method Fill(f: Foreign, k: nat, parts: seq<string>, last: Option<nat>) returns (status: Status)
      requires Balanced(f) && k < |plans| && !plans[k].applied && plans[k].nextArray.Some?
      requires plans[k].nextArray.value.slots == seq(|parts| + 1, _ => None)
      modifies this`memory, this`plans, this`mark, this`budget
      ensures Balanced(f) && Extends(old(memory), memory)
      ensures status == (if old(budget) < |parts| then NoMemory else Ok)
      ensures status == Ok ==> budget == old(budget) - |parts|
      ensures |plans| == |old(plans)| && plans == old(plans)[k := plans[k]]
      ensures plans[k].nextArray.Some? && plans[k] == old(plans)[k].(nextArray := plans[k].nextArray)
      ensures plans[k].nextArray.value.id == old(plans)[k].nextArray.value.id
      ensures status == Ok ==> Spells(memory, plans[k].nextArray.value.slots, parts, last)
    {
      var n := |parts|;
      for i := 0 to n
        invariant Balanced(f) && Extends(old(memory), memory) && budget == old(budget) - i
        invariant |plans| == |old(plans)| && plans == old(plans)[k := plans[k]]
        invariant plans[k].nextArray.Some? && plans[k] == old(plans)[k].(nextArray := plans[k].nextArray)
        invariant plans[k].nextArray.value.id == old(plans)[k].nextArray.value.id
        invariant |plans[k].nextArray.value.slots| == n + 1
        invariant forall j | i <= j <= n :: plans[k].nextArray.value.slots[j] == None
        invariant forall j | 0 <= j < i :: IsTextAt(memory, plans[k].nextArray.value.slots[j])
                                           && memory.nodes[plans[k].nextArray.value.slots[j].value].text == parts[j]
      {
        ghost var before := memory;
        var id := NewNode(parts[i]);
        if id.None? {
          return NoMemory;
        }
        var a := plans[k].nextArray.value;
        NodeStep(f, before, memory, refs, plans, k, i, id);
        plans := plans[k := plans[k].(nextArray := Some(Array(a.id, a.slots[i := id])))];
      }
      var a := plans[k].nextArray.value;
      LastStep(f, memory, refs, plans, k, last);
      plans := plans[k := plans[k].(nextArray := Some(Array(a.id, a.slots[n := last])))];
      status := Ok;
    }

    /** Appends a plan that holds nothing yet. */
    method AddPlan(f: Foreign, p: Plan)
      requires Balanced(f) && HoldsNothing(p)
      modifies this`plans
      ensures Balanced(f) && plans == old(plans) + [p]
    {
      plans := plans + [p];
      forall x: nat
        ensures BalancedAt(f, memory, refs, plans, x)
      {
        assert BalancedAt(f, memory, refs, old(plans), x);
        assert plans[..|plans| - 1] == old(plans);
      }
    }

    method TakeArray(f: Foreign, k: nat, n: nat) returns (ok: bool)
      requires Balanced(f) && k < |plans| && !plans[k].applied && plans[k].nextArray.None?
      modifies this`memory, this`plans, this`mark, this`budget
      ensures Balanced(f) && Extends(old(memory), memory)
      ensures |plans| == |old(plans)| && plans == old(plans)[k := plans[k]]
      ensures plans[k] == old(plans)[k].(nextArray := plans[k].nextArray)
      ensures ok <==> plans[k].nextArray.Some?
      ensures ok <==> old(budget) > 0
      ensures budget == if ok then old(budget) - 1 else 0
      ensures ok ==> plans[k].nextArray.value.slots == seq(n, _ => None)
    {
      ghost var before := memory;
      var a := NewArray(n);
      if a.Some? {
        ghost var q := plans[k].(nextArray := a);
        forall x: nat
          ensures Moved(before, memory, plans[k], q, x)
        {
          NoneInSlots(HeldSlots(q), x);
          assert Moved(before, memory, plans[k], q, x);
        }
        PlanStep(f, before, memory, refs, plans, k, q);
        plans := plans[k := plans[k].(nextArray := a)];
      }
      ok := a.Some?;
    }

    method TakeName(f: Foreign, k: nat, text: string) returns (ok: bool)
      requires Balanced(f) && k < |plans| && !plans[k].applied && plans[k].nextName.None?
      modifies this`memory, this`plans, this`mark, this`budget
      ensures Balanced(f) && Extends(old(memory), memory)
      ensures |plans| == |old(plans)| && plans == old(plans)[k := plans[k]]
      ensures plans[k] == old(plans)[k].(nextName := plans[k].nextName)
      ensures ok <==> plans[k].nextName.Some?
      ensures ok <==> old(budget) > 0
      ensures budget == if ok then old(budget) - 1 else 0
      ensures ok ==> plans[k].nextName.value in memory.texts && memory.texts[plans[k].nextName.value] == text
    {
      ghost var before := memory;
      var id := NewText(text);
      if id.Some? {
        PlanStep(f, before, memory, refs, plans, k, plans[k].(nextName := id));
        plans := plans[k := plans[k].(nextName := id)];
      }
      ok := id.Some?;
    }

    /** Remembers how the column was spelled, because its position in the path
        changes. */
    method TakeSpelling(f: Foreign, k: nat, lookup: Status) returns (status: Status)
      requires Balanced(f) && k < |plans| && !plans[k].applied && plans[k].spelling.None?
      modifies this`memory, this`plans, this`mark, this`budget
      ensures Balanced(f) && Extends(old(memory), memory)
      ensures |plans| == |old(plans)| && plans == old(plans)[k := plans[k]]
      ensures plans[k] == old(plans)[k].(spelling := plans[k].spelling)
      ensures status == if lookup != Ok then lookup else if old(budget) == 0 then NoMemory else Ok
      ensures status == Ok ==> budget == old(budget) - 1
    {
      if lookup != Ok {
        return lookup;
      }
      ghost var before := memory;
      var id := NewText("");
      if id.None? {
        return NoMemory;
      }
      PlanStep(f, before, memory, refs, plans, k, plans[k].(spelling := id));
      plans := plans[k := plans[k].(spelling := id)];
      status := Ok;
    }

    /** Fills the next array and, if the column's position in the path changes,
        remembers how it was spelled. */
    method FillAndSpell(f: Foreign, k: nat, parts: seq<string>, last: Option<nat>, moves: bool, lookup: Status)
      returns (status: Status)
      requires Balanced(f) && k < |plans| && !plans[k].applied && plans[k].nextArray.Some? && plans[k].spelling.None?
      requires plans[k].nextArray.value.slots == seq(|parts| + 1, _ => None)
      modifies this`memory, this`plans, this`mark, this`budget
      ensures Balanced(f) && Extends(old(memory), memory)
      ensures status == FillStatus(|parts|, moves, lookup, old(budget))
      ensures status == Ok ==> budget == old(budget) - |parts| - if moves then 1 else 0
      ensures |plans| == |old(plans)| && plans == old(plans)[k := plans[k]]
      ensures plans[k] == old(plans)[k].(nextArray := plans[k].nextArray, spelling := plans[k].spelling)
      ensures plans[k].nextArray.Some?
      ensures status == Ok ==> Spells(memory, plans[k].nextArray.value.slots, parts, last)
    {
      status := Fill(f, k, parts, last);
      if status == Ok && moves {
        status := TakeSpelling(f, k, lookup);
      }
    }

    lemma LastChanged(before: seq<Plan>, middle: seq<Plan>, after: seq<Plan>)
      requires |after| == |middle| == |before| + 1 && middle == before + [middle[|before|]]
      requires after == middle[|before| := after[|before|]]
      ensures after == before + [after[|before|]]
    {
    }

    /** Plans the new qualifiers of a column reference.  A plan that could not be
        finished holds what was allocated for it. */
    method PrepareColumn(f: Foreign, c: nat, parts: seq<string>, lookup: Status) returns (status: Status)
      requires Balanced(f) && c < |refs| && refs[c].name.None?
      modifies this`memory, this`plans, this`mark, this`budget
      ensures Balanced(f) && Extends(old(memory), memory)
      ensures |plans| == |old(plans)| + 1 && plans == old(plans) + [plans[|old(plans)|]] && !plans[|old(plans)|].applied
      ensures status == Ok ==> Ready(memory, refs, plans[|old(plans)|], c, parts)
      ensures status == PlanStatus(old(memory), refs[c], parts, lookup, old(budget))
      ensures status == Ok ==> budget == old(budget) - PlanCost(old(memory), refs[c], parts)
    {
      hide Balance, InSlots, Is, Has;
      var k := |plans|;
      if !IsBound(memory, refs[c]) || parts == [] {
        AddPlan(f, EMPTY);
        return InternalError;
      }
      AddPlan(f, EMPTY.(target := c, previous := refs[c]));
      var next := NewQualifiers(refs[c], parts);
      ghost var added := plans;
      var ok := TakeArray(f, k, |next| + 1);
      LastChanged(old(plans), added, plans);
      if !ok {
        return NoMemory;
      }
      ghost var empty := plans;
      status := FillAndSpell(f, k, next, Column(refs[c]), Moves(memory, refs[c], parts), lookup);
      LastChanged(old(plans), empty, plans);
    }

    /** Plans the new qualifiers of an assignment target, the first of them in a string. */
    method PrepareAssignment(f: Foreign, c: nat, parts: seq<string>, lookup: Status) returns (status: Status)
      requires Balanced(f) && c < |refs| && refs[c].name.Some?
      modifies this`memory, this`plans, this`mark, this`budget
      ensures Balanced(f) && Extends(old(memory), memory)
      ensures |plans| == |old(plans)| + 1 && plans == old(plans) + [plans[|old(plans)|]] && !plans[|old(plans)|].applied
      ensures status == Ok ==> Ready(memory, refs, plans[|old(plans)|], c, parts)
      ensures status == PlanStatus(old(memory), refs[c], parts, lookup, old(budget))
      ensures status == Ok ==> budget == old(budget) - PlanCost(old(memory), refs[c], parts)
    {
      hide Balance, InSlots, Is, Has, IsBound, Moves, NewQualifiers, PlanCost, PlanStatus, Ready, Spells, FillStatus;
      var k := |plans|;
      if !IsBound(memory, refs[c]) || parts == [] {
        Unplannable(memory, refs[c], parts);
        AddPlan(f, EMPTY);
        return InternalError;
      }
      AssignmentPlan(memory, refs[c], parts);
      AddPlan(f, EMPTY.(target := c, previous := refs[c]));
      var next := NewQualifiers(refs[c], parts);
      ghost var added := plans;
      var zeroed := TakeArray(f, k, |next|);
      LastChanged(old(plans), added, plans);
      ghost var unnamed := plans;
      var named := TakeName(f, k, next[0]);
      LastChanged(old(plans), unnamed, plans);
      if !zeroed || !named {
        return NoMemory;
      }
      ghost var empty := plans;
      status := FillAndSpell(f, k, next[1..], Column(refs[c]), |next| != QualifierCount(refs[c]), lookup);
      LastChanged(old(plans), empty, plans);
      if status == Ok {
        AssignmentReady(memory, refs, plans[k], c, parts);
      }
    }

    // ----- apply

    /** Hands the next name and array to the reference, and the previous ones to the plan. */
    method Apply(f: Foreign, k: nat, parts: seq<string>)
      requires Balanced(f) && k < |plans| && plans[k].target < |refs|
      requires Ready(memory, refs, plans[k], plans[k].target, parts)
      modifies this`refs, this`plans
      ensures Balanced(f)
      ensures var p := old(plans)[k];
              && plans == old(plans)[k := p.(nextName := None, nextArray := None, applied := true)]
              && refs == old(refs)[p.target := Reference(p.nextName, p.nextArray.value)]
    {
      var p := plans[k];
      ApplyStep(f, memory, refs, plans, k, parts);
      refs := refs[p.target := Reference(p.nextName, p.nextArray.value)];
      plans := plans[k := p.(nextName := None, nextArray := None, applied := true)];
    }

    // ----- clear

    /** Frees everything a plan holds and forgets the plan. */
    method Clear(f: Foreign, k: nat)
      requires Balanced(f) && k < |plans|
      modifies this`memory, this`plans
      ensures Balanced(f) && plans == old(plans)[k := EMPTY]
      ensures Extends(memory, old(memory))
    {
      var p := plans[k];
      ghost var before := memory;
      HeldIsAllocated(f, memory, refs, plans, k);
      FreeText(HeldName(p));
      FreeSlots(HeldSlots(p));
      if HeldArray(p).Some? {
        FreeArray(HeldArray(p).value.id);
      }
      FreeText(p.spelling);
      forall x: nat
        ensures Moved(before, memory, p, EMPTY, x)
      {
        HeldOnce(f, before, refs, plans, k, x);
        assert Moved(before, memory, p, EMPTY, x);
      }
      PlanStep(f, before, memory, refs, plans, k, EMPTY);
      plans := plans[k := EMPTY];
    }

    method FreeSlots(slots: Slots)
      requires Marked()
      requires forall i | 0 <= i < |slots| && slots[i].Some? :: slots[i].value in memory.nodes
      requires forall x: nat :: InSlots(slots, x) <= 1
      modifies this`memory
      ensures Marked() && memory == old(memory).(nodes := memory.nodes)
      ensures forall x: nat :: Has(old(memory).nodes.Keys, x) == Has(memory.nodes.Keys, x) + InSlots(slots, x)
      ensures forall x | x in memory.nodes :: x in old(memory).nodes && memory.nodes[x] == old(memory).nodes[x]
    {
      for i := 0 to |slots|
        invariant Marked() && memory == old(memory).(nodes := memory.nodes)
        invariant forall x: nat :: Has(old(memory).nodes.Keys, x) == Has(memory.nodes.Keys, x) + InSlots(slots[..i], x)
        invariant forall x | x in memory.nodes :: x in old(memory).nodes && memory.nodes[x] == old(memory).nodes[x]
      {
        assert slots[..i + 1][..i] == slots[..i];
        if slots[i].Some? {
          PrefixCounts(slots, i + 1, slots[i].value);
          assert Has(old(memory).nodes.Keys, slots[i].value) == 1;
        }
        FreeNode(slots[i]);
      }
      assert slots[..|slots|] == slots;
    }

    /** Clears all plans and drops them. */
    method ClearAll(f: Foreign)
      requires Balanced(f)
      modifies this`memory, this`plans
      ensures Balanced(f) && plans == [] && Extends(memory, old(memory))
    {
      for k := 0 to |plans|
        invariant Balanced(f) && |plans| == |old(plans)| && Extends(memory, old(memory))
        invariant forall j | 0 <= j < k :: plans[j] == EMPTY
      {
        Clear(f, k);
      }
      forall x: nat
        ensures BalancedAt(f, memory, refs, [], x)
      {
        assert BalancedAt(f, memory, refs, plans, x);
        EmptyHoldsNothing(plans, x);
      }
      plans := [];
    }

    // ----- the whole rewrite

    lemma ShowBalance(f: Foreign)
      requires Balanced(f)
      ensures Balance(f, memory, refs, plans)
    {
    }

    /** Plans one bound reference, after allocating the array of plans if it is the
        first of its sort. */
    method PrepareOne(f: Foreign, c: nat, parts: seq<string>, lookup: Status, first: bool) returns (status: Status)
      requires Balanced(f) && c < |refs|
      modifies this`memory, this`plans, this`mark, this`budget
      ensures Balanced(f) && Extends(old(memory), memory)
      ensures status == if first && old(budget) == 0 then NoMemory
                        else PlanStatus(old(memory), refs[c], parts, lookup, old(budget) - if first then 1 else 0)
      ensures status == Ok ==> && |plans| == |old(plans)| + 1 && plans == old(plans) + [plans[|old(plans)|]]
                               && Ready(memory, refs, plans[|old(plans)|], c, parts)
                               && budget == old(budget) - PlanCost(old(memory), refs[c], parts)
                                            - if first then 1 else 0
    {
      if first {
        if budget == 0 {
          return NoMemory;
        }
        budget := budget - 1;
      }
      hide Balance, PlanStatus, PlanCost, Ready;
      if refs[c].name.None? {
        status := PrepareColumn(f, c, parts, lookup);
      } else {
        status := PrepareAssignment(f, c, parts, lookup);
      }
    }

    /** Plans all bound references, up to the first that cannot be planned. */
    method PrepareAll(f: Foreign, bindings: seq<nat>, parts: seq<string>, lookups: seq<Status>)
      returns (status: Status)
      requires Balanced(f) && plans == [] && AreReferences(refs, bindings) && |lookups| == |bindings|
      modifies this`memory, this`plans, this`mark, this`budget
      ensures Balanced(f) && Extends(old(memory), memory)
      ensures status == Ok ==> AllReady(memory, refs, plans, Qualifying(refs, bindings, |bindings|), parts)
      ensures status == PlansStatus(old(memory), refs, bindings, parts, lookups, old(budget), |bindings|)
    {
      hide Balance, Balanced, AllReady, Qualifying, HasPlans, Extends, IsUnqualified, PlanStatus, PlanCost, Ready,
           PlansStatus, Cost, Marked;
      ghost var start := memory;
      NothingPlanned(memory, refs, bindings, parts);
      ShowBalance(f);
      var columns, targets := false, false;
      for i := 0 to |bindings|
        invariant Balanced(f) && Extends(old(memory), memory)
        invariant AllReady(memory, refs, plans, Qualifying(refs, bindings, i), parts)
        invariant PlansStatus(old(memory), refs, bindings, parts, lookups, old(budget), i) == Ok
        invariant budget == old(budget) - Cost(old(memory), refs, bindings, parts, i)
        invariant columns == HasPlans(refs, bindings, i, false) && targets == HasPlans(refs, bindings, i, true)
      {
        var c := bindings[i];
        NextBinding(refs, bindings, i);
        NextStatus(start, refs, bindings, parts, lookups, old(budget), i);
        if !IsUnqualified(refs[c]) {
          ghost var before, planned := memory, plans;
          var started := if refs[c].name.None? then columns else targets;
          PlannedAlike(f, old(memory), memory, refs, c, parts);
          status := PrepareOne(f, c, parts, lookups[i], !started);
          if status != Ok {
            ExtendsOn(start, before, memory);
            FailsEarly(old(memory), refs, bindings, parts, lookups, old(budget), i + 1, |bindings|);
            return;
          }
          if refs[c].name.None? {
            columns := true;
          } else {
            targets := true;
          }
          ExtendsOn(start, before, memory);
          MoreReady(before, memory, refs, planned, plans[|planned|], Qualifying(refs, bindings, i), c, parts);
        }
      }
      status := Ok;
    }

    method ApplyAll(f: Foreign, ghost targets: seq<nat>, parts: seq<string>)
      requires Balanced(f) && AllReady(memory, refs, plans, targets, parts) && AreDistinct(targets)
      modifies this`refs, this`plans
      ensures Balanced(f) && |refs| == |old(refs)|
      ensures forall c | 0 <= c < |refs| && c !in targets :: refs[c] == old(refs)[c]
      ensures forall c | 0 <= c < |refs| && c in targets :: Rewritten(memory, old(refs)[c], refs[c], parts)
    {
      for k := 0 to |plans|
        invariant Balanced(f) && |refs| == |old(refs)| && |plans| == |old(plans)|
        invariant forall j | k <= j < |plans| :: plans[j] == old(plans)[j]
        invariant forall c | 0 <= c < |refs| && c !in targets[..k] :: refs[c] == old(refs)[c]
        invariant forall c | 0 <= c < |refs| && c in targets[..k] :: Rewritten(memory, old(refs)[c], refs[c], parts)
      {
        assert Ready(memory, old(refs), old(plans)[k], targets[k], parts);
        assert targets[k] !in targets[..k];
        Apply(f, k, parts);
        assert targets[..k + 1] == targets[..k] + [targets[k]];
      }
      assert targets[..|plans|] == targets;
    }

    /** Gives every bound reference the new qualifiers, or, if one of them cannot
        be planned, leaves all of them and the whole memory as they were.  However
        the call ends, no plan is left and every address has exactly one holder. */
    method Rewrite(f: Foreign, bindings: seq<nat>, parts: seq<string>, lookups: seq<Status>, install: Status,
                   commit: Status)
      returns (status: Status, applied: bool)
      requires Balanced(f) && plans == [] && AreReferences(refs, bindings) && |lookups| == |bindings|
      requires AreDistinct(Qualifying(refs, bindings, |bindings|))
      modifies this
      ensures Balanced(f) && plans == []
      ensures applied <==> CanPlanAll(old(memory), old(refs), bindings, parts, lookups, old(budget), |bindings|)
      ensures !applied ==> && status != Ok && refs == old(refs) && memory == old(memory)
                           && status == PlansStatus(memory, refs, bindings, parts, lookups, old(budget), |bindings|)
      ensures applied ==> status == if install != Ok then install else commit
      ensures applied ==> |refs| == |old(refs)| && forall c | 0 <= c < |refs| ::
                if c in bindings && !(old(refs)[c].name.Some? && old(refs)[c].list.slots == [])
                then Requalified(memory, old(refs)[c], refs[c], parts) else refs[c] == old(refs)[c]
    {
      PlannedExactly(memory, refs, bindings, parts, lookups, budget, |bindings|);
      hide PlansStatus, CanPlanAll;
      status := PrepareAll(f, bindings, parts, lookups);
      if status != Ok {
        applied := false;
        ClearAll(f);
        SameMemory(f, old(memory), memory, refs);
        return;
      }
      applied := true;
      QualifyingMembers(refs, bindings, |bindings|);
      ApplyAll(f, Qualifying(refs, bindings, |bindings|), parts);
      status := install;
      if status == Ok {
        status := commit;
      }
      ghost var before := memory;
      ClearAll(f);
      forall c | 0 <= c < |refs| && c in bindings && !IsUnqualified(old(refs)[c])
        ensures Requalified(memory, old(refs)[c], refs[c], parts)
      {
        BalancedIsReadable(f, memory, refs, [], c);
        QualifiedSurvives(before, memory, refs[c], NewQualifiers(old(refs)[c], parts), Column(old(refs)[c]));
        RewrittenMeans(memory, old(refs)[c], refs[c], parts);
      }
    }
  }

  // ----- planning is exact

  lemma Unplannable(m: Memory, r: Reference, parts: seq<string>)
    requires !IsBound(m, r) || parts == []
    ensures forall lookup, budget :: PlanStatus(m, r, parts, lookup, budget) == InternalError
  {
  }

  /** The name and the array come first, whether or not the other can be had. */
  lemma AssignmentPlan(m: Memory, r: Reference, parts: seq<string>)
    requires IsBound(m, r) && r.name.Some? && parts != []
    ensures r.list.slots != []
    ensures var n, moves := |NewQualifiers(r, parts)|, |NewQualifiers(r, parts)| != QualifierCount(r);
            && n >= 1 && PlanCost(m, r, parts) == n + 1 + (if moves then 1 else 0)
            && forall lookup, budget: nat ::
                 PlanStatus(m, r, parts, lookup, budget)
                 == if budget < 2 then NoMemory else FillStatus(n - 1, moves, lookup, budget - 2)
  {
  }

  lemma AssignmentReady(m: Memory, refs: seq<Reference>, p: Plan, c: nat, parts: seq<string>)
    requires c < |refs| && refs[c].list.slots != [] && refs[c].name.Some? && |NewQualifiers(refs[c], parts)| >= 1
    requires p.target == c && p.previous == refs[c] && !p.applied && p.nextArray.Some?
    requires p.nextName.Some? && p.nextName.value in m.texts
    requires m.texts[p.nextName.value] == NewQualifiers(refs[c], parts)[0]
    requires Spells(m, p.nextArray.value.slots, NewQualifiers(refs[c], parts)[1..], Column(refs[c]))
    ensures Ready(m, refs, p, c, parts)
  {
  }

  lemma NothingPlanned(m: Memory, refs: seq<Reference>, bindings: seq<nat>, parts: seq<string>)
    requires AreReferences(refs, bindings)
    ensures Extends(m, m) && AllReady(m, refs, [], Qualifying(refs, bindings, 0), parts)
    ensures Cost(m, refs, bindings, parts, 0) == 0
    ensures forall lookups, budget | |lookups| == |bindings| ::
              PlansStatus(m, refs, bindings, parts, lookups, budget, 0) == Ok
    ensures !HasPlans(refs, bindings, 0, false) && !HasPlans(refs, bindings, 0, true)
  {
  }

  lemma NextStatus(m: Memory, refs: seq<Reference>, bindings: seq<nat>, parts: seq<string>, lookups: seq<Status>,
                   budget: nat, i: nat)
    requires i < |bindings| == |lookups| && AreReferences(refs, bindings)
    requires PlansStatus(m, refs, bindings, parts, lookups, budget, i) == Ok
    requires Cost(m, refs, bindings, parts, i) <= budget
    ensures PlansStatus(m, refs, bindings, parts, lookups, budget, i + 1)
         == BindingStatus(m, refs, bindings, parts, lookups, budget - Cost(m, refs, bindings, parts, i), i)
    ensures Cost(m, refs, bindings, parts, i + 1)
         == Cost(m, refs, bindings, parts, i) + BindingCost(m, refs, bindings, parts, i)
  {
    hide IsBound, Moves, OpensPlans, IsUnqualified, NewQualifiers, PlanStatus, PlanCost, BindingCost, BindingStatus;
  }

  lemma ExtendsOn(a: Memory, b: Memory, c: Memory)
    requires Extends(a, b) && Extends(b, c)
    ensures Extends(a, c)
  {
    forall id | id in a.nodes
      ensures id in c.nodes && c.nodes[id] == a.nodes[id]
    {
      assert id in b.nodes;
    }
    forall id | id in a.texts
      ensures id in c.texts && c.texts[id] == a.texts[id]
    {
      assert id in b.texts;
    }
  }

  lemma NextBinding(refs: seq<Reference>, bindings: seq<nat>, i: nat)
    requires i < |bindings| && AreReferences(refs, bindings)
    ensures Qualifying(refs, bindings, i + 1)
         == if IsUnqualified(refs[bindings[i]]) then Qualifying(refs, bindings, i)
            else Qualifying(refs, bindings, i) + [bindings[i]]
    ensures forall named :: HasPlans(refs, bindings, i + 1, named)
                       <==> HasPlans(refs, bindings, i, named)
                            || (!IsUnqualified(refs[bindings[i]]) && refs[bindings[i]].name.Some? == named)
  {
  }

  lemma PlannedAlike(f: Foreign, before: Memory, after: Memory, refs: seq<Reference>, c: nat, parts: seq<string>)
    requires Balance(f, before, refs, []) && Extends(before, after) && c < |refs|
    ensures forall lookup, budget :: PlanStatus(after, refs[c], parts, lookup, budget)
                                  == PlanStatus(before, refs[c], parts, lookup, budget)
    ensures PlanCost(after, refs[c], parts) == PlanCost(before, refs[c], parts)
  {
    BalancedIsReadable(f, before, refs, [], c);
    StaysPlannable(before, after, refs[c], parts);
  }

  // ----- the balance of single steps

  /** What a plan holds more or less of an address is what is allocated more or less. */
  ghost predicate Moved(before: Memory, after: Memory, q: Plan, p: Plan, x: nat) {
    && Has(before.nodes.Keys, x) + InSlots(HeldSlots(p), x) == Has(after.nodes.Keys, x) + InSlots(HeldSlots(q), x)
    && Has(before.arrays, x) + Is(HeldArrayId(p), x) == Has(after.arrays, x) + Is(HeldArrayId(q), x)
    && Has(before.texts.Keys, x) + TextInPlan(p, x) == Has(after.texts.Keys, x) + TextInPlan(q, x)
  }

  /** Changing one plan by what was just allocated or freed keeps the balance. */
  lemma PlanStep(f: Foreign, before: Memory, after: Memory, refs: seq<Reference>, plans: seq<Plan>, k: nat, p: Plan)
    requires Balance(f, before, refs, plans) && k < |plans|
    requires forall x: nat :: Moved(before, after, plans[k], p, x)
    ensures Balance(f, after, refs, plans[k := p])
  {
    var next := plans[k := p];
    forall x: nat
      ensures BalancedAt(f, after, refs, next, x)
    {
      assert BalancedAt(f, before, refs, plans, x);
      assert Moved(before, after, plans[k], p, x);
      PlansUpdate(plans, k, p, x);
    }
  }

  lemma NodeStep(f: Foreign, before: Memory, after: Memory, refs: seq<Reference>, plans: seq<Plan>, k: nat, i: nat,
                 id: Option<nat>)
    requires Balance(f, before, refs, plans) && k < |plans| && !plans[k].applied && plans[k].nextArray.Some?
    requires var slots := plans[k].nextArray.value.slots; i + 1 < |slots| && slots[i] == None
    requires id.Some? && id.value !in before.nodes
    requires after.arrays == before.arrays && after.texts == before.texts
    requires after.nodes.Keys == before.nodes.Keys + {id.value}
    ensures var a := plans[k].nextArray.value;
            Balance(f, after, refs, plans[k := plans[k].(nextArray := Some(Array(a.id, a.slots[i := id])))])
  {
    var a := plans[k].nextArray.value;
    var p := plans[k].(nextArray := Some(Array(a.id, a.slots[i := id])));
    var held, n := HeldSlots(plans[k]), |a.slots| - 1;
    assert HeldSlots(p) == held[i := id];
    forall x: nat
      ensures Moved(before, after, plans[k], p, x)
    {
      SlotsUpdate(held, i, id, x);
      assert Moved(before, after, plans[k], p, x);
    }
    PlanStep(f, before, after, refs, plans, k, p);
  }

  /** The last slot of a held array is not held. */
  lemma LastStep(f: Foreign, m: Memory, refs: seq<Reference>, plans: seq<Plan>, k: nat, last: Option<nat>)
    requires Balance(f, m, refs, plans) && k < |plans| && !plans[k].applied && plans[k].nextArray.Some?
    requires plans[k].nextArray.value.slots != []
    ensures var a := plans[k].nextArray.value;
            Balance(f, m, refs, plans[k := plans[k].(nextArray := Some(Array(a.id, a.slots[|a.slots| - 1 := last])))])
  {
    var a := plans[k].nextArray.value;
    var p := plans[k].(nextArray := Some(Array(a.id, a.slots[|a.slots| - 1 := last])));
    assert HeldSlots(p) == HeldSlots(plans[k]);
    PlanStep(f, m, m, refs, plans, k, p);
  }

  // ----- freeing once

  lemma {:induction false} PrefixCounts(s: Slots, n: nat, x: nat)
    requires n <= |s|
    ensures InSlots(s[..n], x) <= InSlots(s, x)
    decreases |s| - n
  {
    if n == |s| {
      assert s[..n] == s;
    } else {
      PrefixCounts(s, n + 1, x);
      assert s[..n + 1][..n] == s[..n];
    }
  }

  lemma HeldOnce(f: Foreign, m: Memory, refs: seq<Reference>, plans: seq<Plan>, k: nat, x: nat)
    requires Balance(f, m, refs, plans) && k < |plans|
    ensures InSlots(HeldSlots(plans[k]), x) <= Has(m.nodes.Keys, x)
    ensures Is(HeldArrayId(plans[k]), x) <= Has(m.arrays, x)
    ensures TextInPlan(plans[k], x) <= Has(m.texts.Keys, x)
  {
    assert BalancedAt(f, m, refs, plans, x);
    PlanCounts(plans, k, x);
  }

  /** Everything a plan holds is allocated, and nothing is held twice. */
  lemma HeldIsAllocated(f: Foreign, m: Memory, refs: seq<Reference>, plans: seq<Plan>, k: nat)
    requires Balance(f, m, refs, plans) && k < |plans|
    ensures var p, slots := plans[k], HeldSlots(plans[k]);
            && (HeldName(p).Some? ==> HeldName(p).value in m.texts)
            && (p.spelling.Some? ==> p.spelling.value in m.texts && HeldName(p) != p.spelling)
            && (HeldArray(p).Some? ==> HeldArray(p).value.id in m.arrays)
            && (forall i | 0 <= i < |slots| && slots[i].Some? :: slots[i].value in m.nodes)
            && (forall x: nat :: InSlots(slots, x) <= 1)
  {
    var p, slots := plans[k], HeldSlots(plans[k]);
    if HeldName(p).Some? {
      HeldOnce(f, m, refs, plans, k, HeldName(p).value);
    }
    if p.spelling.Some? {
      HeldOnce(f, m, refs, plans, k, p.spelling.value);
    }
    if HeldArray(p).Some? {
      HeldOnce(f, m, refs, plans, k, HeldArray(p).value.id);
    }
    forall i | 0 <= i < |slots| && slots[i].Some?
      ensures slots[i].value in m.nodes
    {
      HeldOnce(f, m, refs, plans, k, slots[i].value);
      SlotCounts(slots, i);
    }
    forall x: nat
      ensures InSlots(slots, x) <= 1
    {
      HeldOnce(f, m, refs, plans, k, x);
    }
  }

  lemma SplitLast(s: Slots, x: nat)
    requires s != []
    ensures InSlots(s, x) == InSlots(s[..|s| - 1], x) + Is(s[|s| - 1], x)
  {
  }

  /** Applying a plan only trades holders. */
  lemma ApplyStep(f: Foreign, m: Memory, refs: seq<Reference>, plans: seq<Plan>, k: nat, parts: seq<string>)
    requires Balance(f, m, refs, plans) && k < |plans| && plans[k].target < |refs|
    requires Ready(m, refs, plans[k], plans[k].target, parts)
    ensures var p := plans[k];
            Balance(f, m, refs[p.target := Reference(p.nextName, p.nextArray.value)],
                    plans[k := p.(nextName := None, nextArray := None, applied := true)])
  {
    hide InSlots, HeldSlots, HeldArrayId, TextInPlan, Is, Ready, NodeInReferences, ArrayInReferences, TextInReferences,
         NodeInPlans, ArrayInPlans, TextInPlans, Has;
    ReadyHasArray(m, refs, plans[k], plans[k].target, parts);
    var p, c := plans[k], plans[k].target;
    var q, r := p.(nextName := None, nextArray := None, applied := true), Reference(p.nextName, p.nextArray.value);
    var laterRefs, laterPlans := refs[c := r], plans[k := q];
    forall x: nat
      ensures BalancedAt(f, m, laterRefs, laterPlans, x)
    {
      assert BalancedAt(f, m, refs, plans, x);
      ReferencesUpdate(refs, c, r, x);
      PlansUpdate(plans, k, q, x);
      Traded(m, refs, p, c, parts, x);
    }
  }

  lemma ReadyHasArray(m: Memory, refs: seq<Reference>, p: Plan, c: nat, parts: seq<string>)
    requires c < |refs| && Ready(m, refs, p, c, parts)
    ensures p.nextArray.Some?
  {
  }

  /** What the plan and the reference hold together stays the same. */
  lemma Traded(m: Memory, refs: seq<Reference>, p: Plan, c: nat, parts: seq<string>, x: nat)
    requires c < |refs| && Ready(m, refs, p, c, parts)
    ensures p.nextArray.Some?
    ensures var q, r, was := p.(nextName := None, nextArray := None, applied := true),
                             Reference(p.nextName, p.nextArray.value), refs[c];
            && InSlots(HeldSlots(p), x) + InSlots(was.list.slots, x)
               == InSlots(HeldSlots(q), x) + InSlots(r.list.slots, x)
            && Is(HeldArrayId(p), x) + Is(Some(was.list.id), x) == Is(HeldArrayId(q), x) + Is(Some(r.list.id), x)
            && TextInPlan(p, x) + Is(was.name, x) == TextInPlan(q, x) + Is(r.name, x)
  {
    hide InSlots;
    var r := Reference(p.nextName, p.nextArray.value);
    assert Column(r) == Column(refs[c]) && r.list.slots != [];
    SplitLast(r.list.slots, x);
    SplitLast(refs[c].list.slots, x);
  }

  // ----- what survives

  lemma MoreReady(before: Memory, after: Memory, refs: seq<Reference>, plans: seq<Plan>, p: Plan, targets: seq<nat>,
                  c: nat, parts: seq<string>)
    requires AllReady(before, refs, plans, targets, parts) && Extends(before, after)
    requires c < |refs| && Ready(after, refs, p, c, parts)
    ensures AllReady(after, refs, plans + [p], targets + [c], parts)
  {
    forall k | 0 <= k < |plans|
      ensures Ready(after, refs, plans[k], targets[k], parts)
    {
      var q := plans[k];
      assert Ready(before, refs, q, targets[k], parts);
      var r := Reference(q.nextName, q.nextArray.value);
      QualifiedExtends(before, after, r, NewQualifiers(refs[targets[k]], parts), Column(refs[targets[k]]));
    }
  }

  lemma QualifiedExtends(before: Memory, after: Memory, r: Reference, parts: seq<string>, last: Option<nat>)
    requires Qualified(before, r, parts, last) && Extends(before, after)
    ensures Qualified(after, r, parts, last)
  {
  }

  /** What a reference spells stays when others' nodes are freed. */
  lemma QualifiedSurvives(before: Memory, after: Memory, r: Reference, parts: seq<string>, last: Option<nat>)
    requires Qualified(before, r, parts, last) && Extends(after, before) && Readable(after, r)
    ensures Qualified(after, r, parts, last)
  {
    var qualifiers := if r.name.None? then parts else parts[1..];
    forall i | 0 <= i < |qualifiers|
      ensures IsTextAt(after, r.list.slots[i]) && after.nodes[r.list.slots[i].value].text == qualifiers[i]
    {
      assert IsTextAt(before, r.list.slots[i]);
      assert r.list.slots[i].value in after.nodes;
    }
  }

  lemma {:induction false} QualifyingMembers(refs: seq<Reference>, bindings: seq<nat>, n: nat)
    requires n <= |bindings| && AreReferences(refs, bindings)
    ensures forall c: nat | c < |refs| ::
              c in Qualifying(refs, bindings, n) <==> c in bindings[..n] && !IsUnqualified(refs[c])
    decreases n
  {
    if n > 0 {
      QualifyingMembers(refs, bindings, n - 1);
      assert bindings[..n] == bindings[..n - 1] + [bindings[n - 1]];
    }
    if n == |bindings| {
      assert bindings[..n] == bindings;
    }
  }

  /** The same holders, and nothing changed on the way: the same memory. */
  lemma SameMemory(f: Foreign, before: Memory, after: Memory, refs: seq<Reference>)
    requires Balance(f, before, refs, []) && Balance(f, after, refs, [])
    requires exists m :: Extends(before, m) && Extends(after, m)
    ensures after == before
  {
    forall x: nat
      ensures x in before.nodes <==> x in after.nodes
      ensures x in before.arrays <==> x in after.arrays
      ensures x in before.texts <==> x in after.texts
    {
      assert BalancedAt(f, before, refs, [], x);
      assert BalancedAt(f, after, refs, [], x);
    }
    assert before.nodes.Keys == after.nodes.Keys;
    assert before.texts.Keys == after.texts.Keys;
    assert before.nodes == after.nodes;
    assert before.texts == after.texts;
  }

  // ----- what the balance means for sharing

  lemma {:induction false} TwoSlotsCount(s: Slots, i: nat, j: nat)
    requires i < j < |s| && s[i].Some? && s[j] == s[i]
    ensures InSlots(s, s[i].value) >= 2
    decreases |s|
  {
    if j < |s| - 1 {
      TwoSlotsCount(s[..|s| - 1], i, j);
    } else {
      SlotCounts(s[..|s| - 1], i);
    }
  }

  lemma {:induction false} TwoReferencesCount(refs: seq<Reference>, c: nat, d: nat, x: nat)
    requires c < d < |refs|
    ensures NodeInReferences(refs, x) >= InSlots(refs[c].list.slots, x) + InSlots(refs[d].list.slots, x)
    decreases |refs|
  {
    if d < |refs| - 1 {
      TwoReferencesCount(refs[..|refs| - 1], c, d, x);
    } else {
      ReferenceCounts(refs[..|refs| - 1], c, x);
    }
  }

  // ----- a reference that is bound twice

  function Handed(p: Plan): Plan {
    p.(nextName := None, nextArray := None, applied := true)
  }

  /** References and plans once the first k plans are applied, whatever they plan. */
  function AfterApplying(refs: seq<Reference>, plans: seq<Plan>, k: nat): (r: (seq<Reference>, seq<Plan>))
    requires k <= |plans| && forall j | 0 <= j < k :: plans[j].target < |refs| && plans[j].nextArray.Some?
    ensures |r.0| == |refs| && |r.1| == |plans|
    ensures forall j | 0 <= j < |plans| :: r.1[j] == if j < k then Handed(plans[j]) else plans[j]
    ensures forall c | 0 <= c < |refs| && (forall j | 0 <= j < k :: plans[j].target != c) :: r.0[c] == refs[c]
  {
    if k == 0 then (refs, plans)
    else
      var before, p := AfterApplying(refs, plans, k - 1), plans[k - 1];
      (before.0[p.target := Reference(p.nextName, p.nextArray.value)], before.1[k - 1 := Handed(p)])
  }

  lemma {:induction false} TwoPlansHold(plans: seq<Plan>, i: nat, j: nat, x: nat)
    requires i < j < |plans|
    ensures ArrayInPlans(plans, x) >= Is(HeldArrayId(plans[i]), x) + Is(HeldArrayId(plans[j]), x)
    decreases |plans|
  {
    if j < |plans| - 1 {
      TwoPlansHold(plans[..|plans| - 1], i, j, x);
    } else {
      PlanCounts(plans[..|plans| - 1], i, x);
    }
  }

  lemma {:induction false} ApplyingBalances(f: Foreign, m: Memory, refs: seq<Reference>, plans: seq<Plan>,
                                            targets: seq<nat>, parts: seq<string>, k: nat)
    requires Balance(f, m, refs, plans) && AllReady(m, refs, plans, targets, parts) && k <= |plans|
    requires AreDistinct(targets)
    ensures forall j | 0 <= j < k :: plans[j].target < |refs| && plans[j].nextArray.Some?
    ensures Balance(f, m, AfterApplying(refs, plans, k).0, AfterApplying(refs, plans, k).1)
  {
    hide Balance, Ready, AllReady, AreDistinct;
    if k > 0 {
      ApplyingBalances(f, m, refs, plans, targets, parts, k - 1);
      StillReady(m, refs, plans, targets, parts, k - 1);
      var before := AfterApplying(refs, plans, k - 1);
      ApplyStep(f, m, before.0, before.1, k - 1, parts);
    }
  }

  lemma StillReady(m: Memory, refs: seq<Reference>, plans: seq<Plan>, targets: seq<nat>, parts: seq<string>, k: nat)
    requires AllReady(m, refs, plans, targets, parts) && k < |plans| && AreDistinct(targets)
    requires forall j | 0 <= j < k :: plans[j].target < |refs| && plans[j].nextArray.Some?
    ensures plans[k].target < |refs| && plans[k].nextArray.Some?
    ensures Ready(m, AfterApplying(refs, plans, k).0, plans[k], plans[k].target, parts)
  {
    hide AfterApplying, Qualified;
    assert Ready(m, refs, plans[k], targets[k], parts);
    forall j | 0 <= j < k
      ensures plans[j].target != targets[k]
    {
      assert Ready(m, refs, plans[j], targets[j], parts);
    }
    var after := AfterApplying(refs, plans, k);
    assert after.0[targets[k]] == refs[targets[k]];
  }

  /** Applying finished plans keeps one holder for every address if and only if no
      reference is planned twice.  Otherwise two plans hold the array the reference
      had, and clearing them would free it twice. */
  lemma AppliedIsBalanced(f: Foreign, m: Memory, refs: seq<Reference>, plans: seq<Plan>, targets: seq<nat>,
                          parts: seq<string>)
    requires Balance(f, m, refs, plans) && AllReady(m, refs, plans, targets, parts)
    ensures forall j | 0 <= j < |plans| :: plans[j].target < |refs| && plans[j].nextArray.Some?
    ensures var after := AfterApplying(refs, plans, |plans|);
            Balance(f, m, after.0, after.1) <==> AreDistinct(targets)
  {
    forall j | 0 <= j < |plans|
      ensures plans[j].target < |refs| && plans[j].nextArray.Some?
    {
      assert Ready(m, refs, plans[j], targets[j], parts);
    }
    if AreDistinct(targets) {
      ApplyingBalances(f, m, refs, plans, targets, parts, |plans|);
    } else {
      var i, j :| 0 <= i < j < |targets| && targets[i] == targets[j];
      TwiceIsUnbalanced(f, m, refs, plans, targets, parts, i, j);
    }
  }

  lemma TwiceIsUnbalanced(f: Foreign, m: Memory, refs: seq<Reference>, plans: seq<Plan>, targets: seq<nat>,
                          parts: seq<string>, i: nat, j: nat)
    requires AllReady(m, refs, plans, targets, parts) && i < j < |targets| && targets[i] == targets[j]
    requires forall j | 0 <= j < |plans| :: plans[j].target < |refs| && plans[j].nextArray.Some?
    ensures !Balance(f, m, AfterApplying(refs, plans, |plans|).0, AfterApplying(refs, plans, |plans|).1)
  {
    var after, x := AfterApplying(refs, plans, |plans|), refs[targets[i]].list.id;
    assert Ready(m, refs, plans[i], targets[i], parts) && Ready(m, refs, plans[j], targets[j], parts);
    TwoPlansHold(after.1, i, j, x);
    assert !BalancedAt(f, m, after.0, after.1, x);
  }

  /** In a balanced store no node stands in two slots. */
  lemma NodesAreUnshared(f: Foreign, m: Memory, refs: seq<Reference>, plans: seq<Plan>, c: nat, i: nat, d: nat, j: nat)
    requires Balance(f, m, refs, plans) && c <= d < |refs|
    requires i < |refs[c].list.slots| && j < |refs[d].list.slots|
    requires refs[c].list.slots[i].Some? && refs[c].list.slots[i] == refs[d].list.slots[j]
    ensures c == d && i == j
  {
    var x := refs[c].list.slots[i].value;
    assert BalancedAt(f, m, refs, plans, x);
    if c < d {
      TwoReferencesCount(refs, c, d, x);
      SlotCounts(refs[c].list.slots, i);
      SlotCounts(refs[d].list.slots, j);
    } else if i != j {
      TwoSlotsCount(refs[c].list.slots, if i < j then i else j, if i < j then j else i);
      ReferenceCounts(refs, c, x);
    }
  }
}

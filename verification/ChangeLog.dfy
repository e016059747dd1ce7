/** The log of renamed identifier slots a handle keeps: one record per slot, found
    by slot, appended when a rename is prepared and taken out when it is undone. */
module ChangeLog {
  import opened Sequences
  import opened Wrappers

  /** A nonzero group ties the catalog, schema and relation name of one relation together. */
  datatype Mutation = Mutation(slot: nat, original: string, value: string, spelling: Option<string>, group: nat)

  type Log = seq<Mutation>

  // ----- looking up a slot

  function Find(log: Log, slot: nat): (i: nat)
    ensures i <= |log|
    ensures i < |log| ==> log[i].slot == slot
    ensures forall k | 0 <= k < i :: log[k].slot != slot
  {
    FindFrom(log, slot, 0)
  }

  function FindFrom(log: Log, slot: nat, from: nat): (i: nat)
    requires from <= |log|
    ensures from <= i <= |log|
    ensures i < |log| ==> log[i].slot == slot
    ensures forall k | from <= k < i :: log[k].slot != slot
    decreases |log| - from
  {
    if from == |log| || log[from].slot == slot then from else FindFrom(log, slot, from + 1)
  }

  function Entry(log: Log, slot: nat): Option<Mutation> {
    var i := Find(log, slot);
    if i < |log| then Some(log[i]) else None
  }

  ghost predicate Distinct(log: Log) {
    forall i, j | 0 <= i < j < |log| :: log[i].slot != log[j].slot
  }

  lemma EntryAt(log: Log, i: nat)
    requires Distinct(log) && i < |log|
    ensures Find(log, log[i].slot) == i && Entry(log, log[i].slot) == Some(log[i])
  {
  }

  // ----- preparing a record

  function Prepared(log: Log, slot: nat, current: string): Log {
    if Find(log, slot) < |log| then log else log + [Mutation(slot, current, current, None, 0)]
  }

  lemma PreparedEntries(log: Log, slot: nat, current: string, x: nat)
    requires Distinct(log)
    ensures var after := Prepared(log, slot, current);
            && Distinct(after) && log <= after && |after| <= |log| + 1
            && Find(after, slot) < |after|
            && Entry(after, x) == (if x == slot && Entry(log, slot).None?
                                   then Some(Mutation(slot, current, current, None, 0)) else Entry(log, x))
            && (Find(log, x) < |log| ==> Find(after, x) == Find(log, x))
  {
    var after := Prepared(log, slot, current);
    assert Distinct(after);
    var i := Find(log, x);
    if i < |log| {
      assert after[i] == log[i];
      EntryAt(after, i);
    }
    if Find(log, slot) == |log| {
      EntryAt(after, |log|);
    }
  }

  // ----- taking records out

  function Removed(log: Log, i: nat): (r: Log)
    requires i < |log|
    ensures |r| == |log| - 1
    ensures forall k | 0 <= k < |r| :: r[k] == log[if k < i then k else k + 1]
  {
    log[..i] + log[i + 1..]
  }

  /** The first n records without those at the given positions. */
  function Keep(log: Log, drop: set<nat>, n: nat): Log
    requires n <= |log|
  {
    if n == 0 then [] else Keep(log, drop, n - 1) + if n - 1 in drop then [] else [log[n - 1]]
  }

  lemma {:induction false} KeepAll(log: Log, drop: set<nat>, n: nat)
    requires n <= |log| && forall d | d in drop :: n <= d
    ensures Keep(log, drop, n) == log[..n]
    decreases n
  {
    if n > 0 {
      KeepAll(log, drop, n - 1);
      assert log[..n] == log[..n - 1] + [log[n - 1]];
    }
  }

  /** Records from n on are dropped. */
  lemma {:induction false} KeepPrefix(log: Log, drop: set<nat>, n: nat, m: nat)
    requires n <= m <= |log| && forall d | 0 <= d < |log| :: d in drop <==> n <= d
    ensures Keep(log, drop, m) == log[..n]
    decreases m
  {
    if m == n {
      KeepAll(log, drop, n);
    } else {
      KeepPrefix(log, drop, n, m - 1);
    }
  }

  /** Dropping the highest position first leaves the others where they are. */
  lemma {:induction false} KeepRemoved(log: Log, drop: set<nat>, top: nat, n: nat)
    requires top in drop && top < |log| && n <= |log| && forall d | d in drop :: d <= top
    ensures n <= top ==> Keep(log, drop, n) == Keep(Removed(log, top), drop - {top}, n)
    ensures n > top ==> Keep(log, drop, n) == Keep(Removed(log, top), drop - {top}, n - 1)
    decreases n
  {
    if n > 0 {
      KeepRemoved(log, drop, top, n - 1);
    }
  }

  lemma {:induction false} KeptFrom(log: Log, drop: set<nat>, n: nat, e: Mutation)
    requires n <= |log|
    ensures e in Keep(log, drop, n) <==> exists i | 0 <= i < n :: log[i] == e && i !in drop
    decreases n
  {
    if n > 0 {
      KeptFrom(log, drop, n - 1, e);
    }
  }

  lemma {:induction false} KeepDistinct(log: Log, drop: set<nat>, n: nat)
    requires Distinct(log) && n <= |log|
    ensures Distinct(Keep(log, drop, n))
    decreases n
  {
    if n > 0 {
      KeepDistinct(log, drop, n - 1);
      var kept := Keep(log, drop, n - 1);
      forall k | 0 <= k < |kept|
        ensures kept[k].slot != log[n - 1].slot
      {
        KeptFrom(log, drop, n - 1, kept[k]);
      }
    }
  }

  /** Exactly the slots whose records stand at dropped positions lose them. */
  lemma KeepEntries(log: Log, drop: set<nat>, x: nat)
    requires Distinct(log)
    ensures var after := Keep(log, drop, |log|);
            Distinct(after) && Entry(after, x) == if Find(log, x) in drop then None else Entry(log, x)
  {
    var after := Keep(log, drop, |log|);
    KeepDistinct(log, drop, |log|);
    var i, k := Find(log, x), Find(after, x);
    if k < |after| {
      KeptFrom(log, drop, |log|, after[k]);
      var j :| 0 <= j < |log| && log[j] == after[k] && j !in drop;
      EntryAt(log, j);
    } else if i < |log| && i !in drop {
      KeptFrom(log, drop, |log|, log[i]);
    }
  }

  lemma {:induction false} KeepOthers(log: Log, i: nat, n: nat)
    requires i < n <= |log|
    ensures Keep(log, {i}, n) == log[..i] + log[i + 1..n]
    decreases n
  {
    if n == i + 1 {
      KeepAll(log, {i}, i);
      assert log[i + 1..n] == [];
    } else {
      KeepOthers(log, i, n - 1);
      assert log[i + 1..n] == log[i + 1..n - 1] + [log[n - 1]];
      Associative(log[..i], log[i + 1..n - 1], [log[n - 1]]);
    }
  }

  lemma RemovedIsKeep(log: Log, i: nat)
    requires i < |log|
    ensures Removed(log, i) == Keep(log, {i}, |log|)
  {
    hide Keep;
    KeepOthers(log, i, |log|);
    WholeRest(log, i + 1);
  }

  lemma WholeRest(log: Log, i: nat)
    requires i <= |log|
    ensures log[i..|log|] == log[i..]
  {
  }

  // ----- changing records in place

  /** A change of records that leaves their slots alone changes them where they are found. */
  lemma SameSlots(before: Log, after: Log, x: nat)
    requires |before| == |after| && forall i | 0 <= i < |before| :: before[i].slot == after[i].slot
    ensures Find(after, x) == Find(before, x)
    ensures Distinct(before) ==> Distinct(after)
  {
  }
}

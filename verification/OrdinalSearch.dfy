/** The search state shared by the ordinal walkers: count mode, find-by-index mode
    and find-by-identity mode, with their early exits. */
module OrdinalSearch {
  import opened Wrappers
  import opened Sequences

  /** One numbered atom of a tree: the address of its slot and what a walker reports of it. */
  datatype Hit<+E> = Hit(addr: nat, info: E)

  /** `matchAddr` asks for an identity, `wantTarget` for an ordinal, neither for a
      count.  Only some walkers leave early once an identity is found. */
  datatype Mode = Mode(wantTarget: bool, matchAddr: Option<nat>, exitOnMatch: bool)

  datatype Progress<+E> = Progress(seen: nat, targetIndex: nat, target: Option<Hit<E>>)

  predicate Finished<E>(m: Mode, p: Progress<E>) {
    p.target.Some? && (m.wantTarget || (m.matchAddr.Some? && m.exitOnMatch))
  }

  /** What recording one atom does to the state. */
  function Recorded<E>(m: Mode, p: Progress<E>, hit: Hit<E>): Progress<E> {
    if m.matchAddr.Some? then
      if hit.addr == m.matchAddr.value then Progress(p.seen + 1, p.seen, Some(hit)) else p.(seen := p.seen + 1)
    else if !m.wantTarget || p.seen != p.targetIndex then p.(seen := p.seen + 1)
    else p.(seen := p.seen + 1, target := Some(hit))
  }

  /** What a walk over the whole enumeration does to the state. */
  function Run<E>(m: Mode, p: Progress<E>, hits: seq<Hit<E>>): Progress<E>
    decreases |hits|
  {
    if hits == [] || Finished(m, p) then p else Run(m, Recorded(m, p, hits[0]), hits[1..])
  }

  lemma {:induction false} RunJoin<E>(m: Mode, p: Progress<E>, a: seq<Hit<E>>, b: seq<Hit<E>>)
    ensures Run(m, Run(m, p, a), b) == Run(m, p, a + b)
    decreases |a|
  {
    if a == [] {
      assert a + b == b;
    } else if Finished(m, p) {
    } else {
      RunJoin(m, Recorded(m, p, a[0]), a[1..], b);
      assert (a + b)[1..] == a[1..] + b;
    }
  }

  lemma RunFinished<E>(m: Mode, p: Progress<E>, hits: seq<Hit<E>>)
    requires Finished(m, p)
    ensures Run(m, p, hits) == p
  {
  }

  lemma RunOne<E>(m: Mode, p: Progress<E>, hit: Hit<E>)
    requires !Finished(m, p)
    ensures Run(m, p, [hit]) == Recorded(m, p, hit)
  {
  }

  class Search<E> {
    const mode: Mode
    var seen: nat
    var targetIndex: nat
    var target: Option<Hit<E>>

    constructor (mode: Mode, targetIndex: nat)
      ensures this.mode == mode && State() == Progress(0, targetIndex, None)
    {
      this.mode, this.targetIndex := mode, targetIndex;
      seen, target := 0, None;
    }

    function State(): Progress<E>
      reads this
    {
      Progress(seen, targetIndex, target)
    }

    predicate Over()
      reads this
    {
      Finished(mode, State())
    }

    /** Counts one atom and takes it as the target if it is the one asked for. */
    method Record(hit: Hit<E>)
      modifies this
      ensures State() == Recorded(mode, old(State()), hit)
    {
      if mode.matchAddr.Some? {
        if hit.addr == mode.matchAddr.value {
          target := Some(hit);
          targetIndex := seen;
        }
        seen := seen + 1;
        return;
      }
      if !mode.wantTarget {
        seen := seen + 1;
        return;
      }
      if seen != targetIndex {
        seen := seen + 1;
        return;
      }
      target := Some(hit);
      seen := seen + 1;
    }
  }

  // ----- the three modes against one enumeration

  const COUNTING := Mode(false, None, false)
  const BY_INDEX := Mode(true, None, false)

  function ByAddr(addr: nat, exitOnMatch: bool): Mode {
    Mode(false, Some(addr), exitOnMatch)
  }

  function Start<E>(index: nat): Progress<E> {
    Progress(0, index, None)
  }

  ghost predicate DistinctAddrs<E>(hits: seq<Hit<E>>) {
    forall i, j | 0 <= i < j < |hits| :: hits[i].addr != hits[j].addr
  }

  function Addrs<E>(hits: seq<Hit<E>>): (r: seq<nat>)
    ensures |r| == |hits|
  {
    if hits == [] then [] else [hits[0].addr] + Addrs(hits[1..])
  }

  lemma {:induction false} AddrsAt<E>(hits: seq<Hit<E>>, i: nat)
    requires i < |hits|
    ensures Addrs(hits)[i] == hits[i].addr
    decreases |hits|
  {
    if i > 0 {
      AddrsAt(hits[1..], i - 1);
    }
  }

  lemma {:induction false} AddrsLack<E>(hits: seq<Hit<E>>, addr: nat)
    requires forall i | 0 <= i < |hits| :: hits[i].addr != addr
    ensures addr !in Addrs(hits)
    decreases |hits|
  {
    if hits != [] {
      AddrsLack(hits[1..], addr);
    }
  }

  lemma {:induction false} AddrsJoin<E>(a: seq<Hit<E>>, b: seq<Hit<E>>)
    ensures Addrs(a + b) == Addrs(a) + Addrs(b)
    decreases |a|
  {
    if a == [] {
      assert a + b == b;
    } else {
      RestOfJoin(a, b);
      AddrsJoin(a[1..], b);
      Associative([a[0].addr], Addrs(a[1..]), Addrs(b));
    }
  }

  /** Count mode returns the length of the enumeration. */
  lemma {:induction false} CountIsLength<E>(p: Progress<E>, hits: seq<Hit<E>>)
    ensures Run(COUNTING, p, hits) == p.(seen := p.seen + |hits|)
    decreases |hits|
  {
    if hits != [] {
      CountIsLength(Recorded(COUNTING, p, hits[0]), hits[1..]);
    }
  }

  /** Index mode returns the entry with that index, if there is one. */
  lemma {:induction false} IndexFinds<E>(p: Progress<E>, hits: seq<Hit<E>>)
    requires p.target == None && p.seen <= p.targetIndex
    ensures var k, r := p.targetIndex - p.seen, Run(BY_INDEX, p, hits);
            && r.target == (if k < |hits| then Some(hits[k]) else None)
            && r.seen == (if k < |hits| then p.targetIndex + 1 else p.seen + |hits|)
    decreases |hits|
  {
    if hits != [] {
      var next := Recorded(BY_INDEX, p, hits[0]);
      if p.seen == p.targetIndex {
        RunFinished(BY_INDEX, next, hits[1..]);
      } else {
        IndexFinds(next, hits[1..]);
      }
    }
  }

  lemma {:induction false} MatchAbsent<E>(addr: nat, exits: bool, p: Progress<E>, hits: seq<Hit<E>>)
    requires forall i | 0 <= i < |hits| :: hits[i].addr != addr
    ensures Run(ByAddr(addr, exits), p, hits).target == p.target
    ensures Run(ByAddr(addr, exits), p, hits).targetIndex == p.targetIndex
    decreases |hits|
  {
    if hits != [] {
      MatchAbsent(addr, exits, Recorded(ByAddr(addr, exits), p, hits[0]), hits[1..]);
    }
  }

  /** No other entry has the address of entry k. */
  ghost predicate UniqueAt<E>(hits: seq<Hit<E>>, k: nat) {
    k < |hits| && forall i | 0 <= i < |hits| && i != k :: hits[i].addr != hits[k].addr
  }

  /** Identity mode returns the index of the one entry with that address, whether
      or not it leaves early. */
  lemma {:induction false} MatchFinds<E>(exits: bool, p: Progress<E>, hits: seq<Hit<E>>, k: nat)
    requires UniqueAt(hits, k) && p.target == None
    ensures Run(ByAddr(hits[k].addr, exits), p, hits).target == Some(hits[k])
    ensures Run(ByAddr(hits[k].addr, exits), p, hits).targetIndex == p.seen + k
    decreases |hits|
  {
    var m := ByAddr(hits[k].addr, exits);
    var next := Recorded(m, p, hits[0]);
    if k == 0 {
      assert forall i | 0 <= i < |hits[1..]| :: hits[1..][i] == hits[i + 1];
      if Finished(m, next) {
        RunFinished(m, next, hits[1..]);
      } else {
        MatchAbsent(hits[0].addr, exits, next, hits[1..]);
      }
    } else {
      assert forall i | 0 <= i < |hits[1..]| :: hits[1..][i] == hits[i + 1];
      MatchFinds(exits, next, hits[1..], k - 1);
    }
  }

  /** The two searches are inverse: the index of the address found at index k is
      k, and the entry at the index found for an address has that address. */
  lemma SearchesAreInverse<E>(exits: bool, hits: seq<Hit<E>>, k: nat, addr: nat)
    requires DistinctAddrs(hits)
    ensures var found := Run(BY_INDEX, Start(k), hits).target;
            found.Some? <==> k < Run(COUNTING, Start(0), hits).seen
    ensures var found := Run(BY_INDEX, Start(k), hits).target;
            found.Some? ==> Run(ByAddr(found.value.addr, exits), Start(0), hits).targetIndex == k
    ensures var r := Run(ByAddr(addr, exits), Start(0), hits);
            r.target.Some? ==> Run(BY_INDEX, Start(r.targetIndex), hits).target == r.target
                               && r.target.value.addr == addr
    ensures Run(ByAddr(addr, exits), Start(0), hits).target.Some?
       <==> exists i | 0 <= i < |hits| :: hits[i].addr == addr
  {
    CountIsLength(Start(0), hits);
    IndexFinds(Start(k), hits);
    if k < |hits| {
      MatchFinds(exits, Start(0), hits, k);
    }
    if i :| 0 <= i < |hits| && hits[i].addr == addr {
      MatchFinds(exits, Start(0), hits, i);
      IndexFinds(Start(i), hits);
    } else {
      MatchAbsent(addr, exits, Start(0), hits);
    }
  }
}

/** Inserting into the paired targets and receivers of RETURNING ... INTO. */
module PairedInto {
  import opened Wrappers
  import opened Sequences
  import opened TargetEdits

  /** Where a channel's targets and receivers stand in the statement's result list.  A
      channel without receivers in the list may name receiver columns. */
  datatype Channel = Channel(isSink: bool, targetOffset: nat, targetCount: nat, sinkOffset: nat, sinkCount: nat,
                             columns: seq<string>)

  datatype ParsedPair = Pair(target: nat, receiver: nat) | PairRefused(status: Status)

  /** The receivers follow their targets, one each, inside the list. */
  predicate Consistent(c: Channel, length: nat) {
    && c.isSink && c.targetCount == c.sinkCount
    && c.targetOffset + c.targetCount == c.sinkOffset && c.sinkOffset + c.sinkCount <= length
  }

  predicate InRange(c: Channel, length: nat) {
    c.targetOffset + c.targetCount <= length
  }

  function Grown(c: Channel): Channel {
    c.(targetCount := c.targetCount + 1, sinkOffset := c.sinkOffset + 1, sinkCount := c.sinkCount + 1)
  }

  // ----- the list as prefix, pairs and suffix

  function Targets(list: seq<nat>, c: Channel): seq<nat>
    requires Consistent(c, |list|)
  {
    list[c.targetOffset..c.sinkOffset]
  }

  function Receivers(list: seq<nat>, c: Channel): seq<nat>
    requires Consistent(c, |list|)
  {
    list[c.sinkOffset..c.sinkOffset + c.sinkCount]
  }

  function Zip<A, B>(a: seq<A>, b: seq<B>): (r: seq<(A, B)>)
    requires |a| == |b|
    ensures |r| == |a| && forall i | 0 <= i < |a| :: r[i] == (a[i], b[i])
  {
    seq(|a|, i requires 0 <= i < |a| => (a[i], b[i]))
  }

  function Pairs(list: seq<nat>, c: Channel): seq<(nat, nat)>
    requires Consistent(c, |list|)
  {
    Zip(Targets(list, c), Receivers(list, c))
  }

  function Inserted<A>(s: seq<A>, i: nat, x: A): seq<A>
    requires i <= |s|
  {
    s[..i] + [x] + s[i..]
  }

  /** What the copying does to the list. */
  function WithPair(list: seq<nat>, c: Channel, i: nat, target: nat, receiver: nat): seq<nat>
    requires Consistent(c, |list|) && i <= c.targetCount
  {
    list[..c.targetOffset + i] + [target] + list[c.targetOffset + i..c.sinkOffset + i] + [receiver]
    + list[c.sinkOffset + i..]
  }

  /** Entry by entry: everything up to the new target stays, what stands between it and the
      new receiver moves by one place, and the rest by two. */
  lemma PairPlaces(list: seq<nat>, c: Channel, i: nat, target: nat, receiver: nat)
    requires c.isSink && c.targetCount == c.sinkCount && c.targetOffset + c.targetCount == c.sinkOffset
    requires c.sinkOffset + c.sinkCount <= |list| && i <= c.targetCount
    ensures var after, at, sink := WithPair(list, c, i, target, receiver), c.targetOffset + i, c.sinkOffset + i;
            && |after| == |list| + 2 && after[at] == target && after[sink + 1] == receiver
            && (forall k | 0 <= k < at :: after[k] == list[k])
            && (forall k | at < k <= sink :: after[k] == list[k - 1])
            && (forall k | sink + 2 <= k < |after| :: after[k] == list[k - 2])
    ensures Grown(c) == Channel(c.isSink, c.targetOffset, c.targetCount + 1, c.sinkOffset + 1, c.sinkCount + 1,
                                c.columns)
  {
  }

  /** The list stays prefix, targets, receivers, suffix with equal halves; the pair
      is inserted at its index among the pairs, and nothing else moves. */
  lemma PairIsInserted(list: seq<nat>, c: Channel, i: nat, target: nat, receiver: nat)
    requires Consistent(c, |list|) && i <= c.targetCount
    ensures var after, d := WithPair(list, c, i, target, receiver), Grown(c);
            && |after| == |list| + 2 && Consistent(d, |after|)
            && after[..d.targetOffset] == list[..c.targetOffset]
            && after[d.sinkOffset + d.sinkCount..] == list[c.sinkOffset + c.sinkCount..]
            && Targets(after, d) == Inserted(Targets(list, c), i, target)
            && Receivers(after, d) == Inserted(Receivers(list, c), i, receiver)
            && Pairs(after, d) == Inserted(Pairs(list, c), i, (target, receiver))
  {
    hide Inserted, Zip, Targets, Receivers;
    var p, t, r, q := list[..c.targetOffset], Targets(list, c), Receivers(list, c), list[c.sinkOffset + c.sinkCount..];
    Around(list, c, i);
    var ti, ri := Inserted(t, i, target), Inserted(r, i, receiver);
    PairJoin(p, t, r, q, i, target, receiver);
    Cuts(WithPair(list, c, i, target, receiver), Grown(c), p, ti, ri, q);
    ZipInserted(t, r, i, target, receiver);
  }

  /** A list joined from its four parts is cut into them again. */
  lemma Cuts(list: seq<nat>, c: Channel, p: seq<nat>, t: seq<nat>, r: seq<nat>, q: seq<nat>)
    requires list == p + t + r + q && c.isSink
    requires c.targetOffset == |p| && c.targetCount == c.sinkCount == |t| == |r| && c.sinkOffset == |p| + |t|
    ensures Consistent(c, |list|) && list[..c.targetOffset] == p && list[c.sinkOffset + c.sinkCount..] == q
    ensures Targets(list, c) == t && Receivers(list, c) == r
  {
    FourParts(p, t, r, q);
  }

  lemma Around(list: seq<nat>, c: Channel, i: nat)
    requires Consistent(c, |list|) && i <= c.targetCount
    ensures |Targets(list, c)| == |Receivers(list, c)| == c.targetCount
    ensures list[..c.targetOffset + i] == list[..c.targetOffset] + Targets(list, c)[..i]
    ensures list[c.targetOffset + i..c.sinkOffset + i] == Targets(list, c)[i..] + Receivers(list, c)[..i]
    ensures list[c.sinkOffset + i..] == Receivers(list, c)[i..] + list[c.sinkOffset + c.sinkCount..]
  {
    var o, k, n := c.targetOffset, c.sinkOffset, c.targetCount;
    InFront(list, o, n, i);
    InFront(list, k, n, i);
    Behind(list, o, n, i);
    Behind(list, k, n, i);
    SplitAt(list, o + i, k, k + i);
    InBack(list, k, n, i);
  }

  /** A stretch of the list up to an index in it. */
  lemma InFront(list: seq<nat>, o: nat, n: nat, i: nat)
    requires i <= n && o + n <= |list|
    ensures |list[o..o + n]| == n && list[o..o + n][..i] == list[o..o + i]
    ensures list[..o + i] == list[..o] + list[o..o + i]
  {
    Ends(list[o..o + n], i);
    SubSlice(list, o, o + n, 0, i);
    Ends(list, o);
    Ends(list, o + i);
    SplitAt(list, 0, o, o + i);
  }

  lemma Behind(list: seq<nat>, o: nat, n: nat, i: nat)
    requires i <= n && o + n <= |list|
    ensures |list[o..o + n]| == n && list[o..o + n][i..] == list[o + i..o + n]
  {
    Ends(list[o..o + n], i);
    SubSlice(list, o, o + n, i, n);
  }

  lemma InBack(list: seq<nat>, o: nat, n: nat, i: nat)
    requires i <= n && o + n <= |list|
    ensures list[o + i..] == list[o + i..o + n] + list[o + n..]
  {
    Ends(list, o + i);
    Ends(list, o + n);
    SplitAt(list, o + i, o + n, |list|);
  }

  lemma PairJoin(p: seq<nat>, t: seq<nat>, r: seq<nat>, q: seq<nat>, i: nat, target: nat, receiver: nat)
    requires i <= |t| == |r|
    ensures |Inserted(t, i, target)| == |t| + 1 && |Inserted(r, i, receiver)| == |r| + 1
    ensures (p + t[..i]) + [target] + (t[i..] + r[..i]) + [receiver] + (r[i..] + q)
         == p + Inserted(t, i, target) + Inserted(r, i, receiver) + q
  {
  }

  lemma FourParts(a: seq<nat>, b: seq<nat>, c: seq<nat>, d: seq<nat>)
    ensures var s := a + b + c + d;
            && s[..|a|] == a && s[|a|..|a| + |b|] == b && s[|a| + |b|..|a| + |b| + |c|] == c
            && s[|a| + |b| + |c|..] == d
  {
  }

  lemma ZipInserted<A, B>(t: seq<A>, r: seq<B>, i: nat, target: A, receiver: B)
    requires |t| == |r| && i <= |t|
    ensures Zip(Inserted(t, i, target), Inserted(r, i, receiver)) == Inserted(Zip(t, r), i, (target, receiver))
  {
  }

  // ----- named receiver columns

  /** Every target has a named column. */
  predicate Named(c: Channel) {
    c.isSink && c.columns != [] && |c.columns| == c.targetCount
  }

  function NamedPairs(list: seq<nat>, c: Channel): seq<(nat, string)>
    requires InRange(c, |list|) && Named(c)
  {
    Zip(list[c.targetOffset..c.targetOffset + c.targetCount], c.columns)
  }

  function WithTarget(list: seq<nat>, c: Channel, i: nat, target: nat): seq<nat>
    requires InRange(c, |list|) && i <= c.targetCount
  {
    Inserted(list, c.targetOffset + i, target)
  }

  /** The dialect inserts the column at the same index and counts one target more. */
  function NamedGrown(c: Channel, i: nat, column: string): Channel
    requires i <= |c.columns|
  {
    c.(targetCount := c.targetCount + 1, columns := Inserted(c.columns, i, column))
  }

  /** Entry by entry, in the list and in the columns. */
  lemma NamedPlaces(list: seq<nat>, c: Channel, i: nat, target: nat, column: string)
    requires c.isSink && |c.columns| == c.targetCount && c.columns != []
    requires c.targetOffset + c.targetCount <= |list| && i <= c.targetCount
    ensures var after, at, d := WithTarget(list, c, i, target), c.targetOffset + i, NamedGrown(c, i, column);
            && |after| == |list| + 1 && after[at] == target
            && (forall k | 0 <= k < at :: after[k] == list[k])
            && (forall k | at < k < |after| :: after[k] == list[k - 1])
            && |d.columns| == |c.columns| + 1 && d.columns[i] == column
            && (forall k | 0 <= k < i :: d.columns[k] == c.columns[k])
            && (forall k | i < k < |d.columns| :: d.columns[k] == c.columns[k - 1])
            && d == Channel(c.isSink, c.targetOffset, c.targetCount + 1, c.sinkOffset, c.sinkCount, d.columns)
  {
  }

  /** The target and its column are inserted as a pair, and nothing else moves. */
  lemma NamedPairIsInserted(list: seq<nat>, c: Channel, i: nat, target: nat, column: string)
    requires InRange(c, |list|) && Named(c) && i <= c.targetCount
    ensures var after, d := WithTarget(list, c, i, target), NamedGrown(c, i, column);
            && |after| == |list| + 1 && InRange(d, |after|) && Named(d)
            && after[..d.targetOffset] == list[..c.targetOffset]
            && after[d.targetOffset + d.targetCount..] == list[c.targetOffset + c.targetCount..]
            && NamedPairs(after, d) == Inserted(NamedPairs(list, c), i, (target, column))
  {
    hide Inserted, Zip;
    var o, n := c.targetOffset, c.targetCount;
    var p, t, q := list[..o], list[o..o + n], list[o + n..];
    TargetJoin(list, o, n, i, target);
    ColumnsJoin(c.columns, i, column);
    FourParts(p, Inserted(t, i, target), q, []);
    ZipInserted(t, c.columns, i, target, column);
  }

  lemma TargetJoin(list: seq<nat>, o: nat, n: nat, i: nat, target: nat)
    requires i <= n && o + n <= |list|
    ensures var t := list[o..o + n];
            && |Inserted(t, i, target)| == n + 1
            && Inserted(list, o + i, target) == list[..o] + Inserted(t, i, target) + list[o + n..] + []
  {
    var p, t, q := list[..o], list[o..o + n], list[o + n..];
    InFront(list, o, n, i);
    Behind(list, o, n, i);
    InBack(list, o, n, i);
  }

  lemma ColumnsJoin(columns: seq<string>, i: nat, column: string)
    requires i <= |columns|
    ensures |Inserted(columns, i, column)| == |columns| + 1 && Inserted(columns, i, column) != []
  {
  }

  // ----- the list in memory

  class ResultList {
    var items: array<nat>
    var channel: Channel
    var failed: bool

    /** Inserts a target and its receiver: as a pair of list entries when the channel has
        receivers in the list, and as a target with a named receiver column otherwise.
        Once the list is installed only the commit can fail, and that poisons the handle. */
    method Insert(index: nat, parsed: ParsedPair, column: string, memory: bool, adjust: Status, commit: Status)
      returns (status: Status)
      modifies this
      ensures var c, n := old(channel), old(items.Length);
              var place := c.targetOffset + c.targetCount <= n && index <= c.targetCount;
              && (!place ==> status == InvalidArgument)
              && (place && c.sinkCount > 0 && !Consistent(c, n) ==> status == InternalError)
              && (place && c.sinkCount == 0 && !Named(c) ==> status == Unsupported)
      ensures var c, n := old(channel), old(items.Length);
              var paired := && c.sinkCount > 0 && c.isSink && c.sinkCount == c.targetCount
                            && c.sinkOffset == c.targetOffset + c.targetCount && c.sinkOffset + c.sinkCount <= n
                            && n + 2 <= 0x1FFF_FFFF_FFFF_FFFF;
              var named := && c.sinkCount == 0 && c.isSink && c.columns != [] && |c.columns| == c.targetCount
                           && n + 1 <= 0x1FFF_FFFF_FFFF_FFFF;
              var installed := && c.targetOffset + c.targetCount <= n && index <= c.targetCount
                               && (paired || named) && parsed.Pair? && memory && adjust == Ok;
              && (installed ==>
                    && status == commit && (failed <==> old(failed) || commit != Ok)
                    && (paired ==>
                          && items[..] == WithPair(old(items[..]), c, index, parsed.target, parsed.receiver)
                          && channel == Grown(c))
                    && (named ==>
                          && items[..] == WithTarget(old(items[..]), c, index, parsed.target)
                          && channel == NamedGrown(c, index, column)))
              && (!installed ==>
                    status != Ok && items == old(items) && items[..] == old(items[..]) && channel == c
                    && failed == old(failed))
    {
      if channel.targetOffset > items.Length || channel.targetCount > items.Length - channel.targetOffset {
        return InvalidArgument;
      }
      if index > channel.targetCount {
        return InvalidArgument;
      }
      if channel.sinkCount > 0 {
        status := InsertPair(index, parsed, memory, adjust, commit);
      } else {
        status := InsertNamed(index, parsed, column, memory, adjust, commit);
      }
    }

    /** The branch for named receiver columns. */
    method InsertNamed(index: nat, parsed: ParsedPair, column: string, memory: bool, adjust: Status, commit: Status)
      returns (status: Status)
      requires channel.sinkCount == 0 && InRange(channel, items.Length) && index <= channel.targetCount
      modifies this
      ensures !Named(old(channel)) ==> status == Unsupported
      ensures var installed := && Named(old(channel)) && old(items.Length) + 1 <= MAX_NODES
                               && parsed.Pair? && memory && adjust == Ok;
              && (installed ==>
                    && status == commit && (failed <==> old(failed) || commit != Ok)
                    && items[..] == WithTarget(old(items[..]), old(channel), index, parsed.target)
                    && channel == NamedGrown(old(channel), index, column))
              && (!installed ==>
                    status != Ok && items == old(items) && items[..] == old(items[..]) && channel == old(channel)
                    && failed == old(failed))
    {
      var c := channel;
      if !c.isSink || |c.columns| == 0 || |c.columns| != c.targetCount {
        return Unsupported;
      }
      if items.Length + 1 > MAX_NODES {
        return ResourceLimit;
      }
      if parsed.PairRefused? {
        return if parsed.status == Ok then InternalError else parsed.status;
      }
      if !memory {
        return NoMemory;
      }
      if adjust != Ok {
        return adjust;
      }
      var at := c.targetOffset + index;
      var next := new nat[items.Length + 1];
      Copy(next, 0, items[..at]);
      next[at] := parsed.target;
      Copy(next, at + 1, items[at..]);
      TwoParts(items[..], at, parsed.target, next[..]);
      items, channel := next, NamedGrown(c, index, column);
      failed := failed || commit != Ok;
      status := commit;
    }

    /** The branch for receivers in the list. */
    method InsertPair(index: nat, parsed: ParsedPair, memory: bool, adjust: Status, commit: Status)
      returns (status: Status)
      requires channel.sinkCount > 0 && InRange(channel, items.Length) && index <= channel.targetCount
      modifies this
      ensures !Consistent(old(channel), old(items.Length)) ==> status == InternalError
      ensures var installed := Consistent(old(channel), old(items.Length))
                               && old(items.Length) + 2 <= MAX_NODES && parsed.Pair? && memory && adjust == Ok;
              && (installed ==>
                    && status == commit && (failed <==> old(failed) || commit != Ok)
                    && items[..] == WithPair(old(items[..]), old(channel), index, parsed.target, parsed.receiver)
                    && channel == Grown(old(channel)))
              && (!installed ==>
                    status != Ok && items == old(items) && items[..] == old(items[..]) && channel == old(channel)
                    && failed == old(failed))
    {
      var c := channel;
      var count := items.Length;
      if !c.isSink || c.targetCount != c.sinkCount || c.targetOffset > c.sinkOffset
         || c.targetCount != c.sinkOffset - c.targetOffset
         || c.sinkOffset > count || c.sinkCount > count - c.sinkOffset
      {
        return InternalError;
      }
      if count + 2 > MAX_NODES {
        return ResourceLimit;
      }
      if parsed.PairRefused? {
        return if parsed.status == Ok then InternalError else parsed.status;
      }
      if !memory {
        return NoMemory;
      }
      if adjust != Ok {
        return adjust;
      }
      var at, sink := c.targetOffset + index, c.sinkOffset + index;
      var next := CopyWithPair(items[..], at, sink, parsed.target, parsed.receiver);
      items, channel := next, Grown(c);
      failed := failed || commit != Ok;
      status := commit;
    }
  }

  method CopyWithPair(source: seq<nat>, at: nat, sink: nat, target: nat, receiver: nat) returns (next: array<nat>)
    requires at <= sink <= |source|
    ensures fresh(next) && next[..] == source[..at] + [target] + source[at..sink] + [receiver] + source[sink..]
  {
    next := new nat[|source| + 2];
    Copy(next, 0, source[..at]);
    next[at] := target;
    Copy(next, at + 1, source[at..sink]);
    next[sink + 1] := receiver;
    Copy(next, sink + 2, source[sink..]);
    FiveParts(source, at, sink, target, receiver, next[..]);
  }

  lemma FiveParts(s: seq<nat>, at: nat, sink: nat, x: nat, y: nat, next: seq<nat>)
    requires at <= sink <= |s| && |next| == |s| + 2 && next[at] == x && next[sink + 1] == y
    requires forall k | 0 <= k < at :: next[k] == s[k]
    requires forall k | at < k <= sink :: next[k] == s[k - 1]
    requires forall k | sink + 2 <= k < |next| :: next[k] == s[k - 2]
    ensures next == s[..at] + [x] + s[at..sink] + [y] + s[sink..]
  {
  }

  lemma TwoParts(s: seq<nat>, at: nat, x: nat, next: seq<nat>)
    requires at <= |s| && |next| == |s| + 1 && next[at] == x
    requires forall k | 0 <= k < at :: next[k] == s[k]
    requires forall k | at < k < |next| :: next[k] == s[k - 1]
    ensures next == Inserted(s, at, x)
  {
  }

  // ----- runs of insertions

  function PairRun(list: seq<nat>, c: Channel, inserts: seq<(nat, nat, nat)>): (seq<nat>, Channel)
    requires Consistent(c, |list|)
    decreases |inserts|
  {
    if inserts == [] then (list, c)
    else
      var (i, target, receiver) := inserts[0];
      if i > c.targetCount then PairRun(list, c, inserts[1..])
      else
        PairIsInserted(list, c, i, target, receiver);
        PairRun(WithPair(list, c, i, target, receiver), Grown(c), inserts[1..])
  }

  function ZippedRun(pairs: seq<(nat, nat)>, inserts: seq<(nat, nat, nat)>): seq<(nat, nat)>
    decreases |inserts|
  {
    if inserts == [] then pairs
    else
      var (i, target, receiver) := inserts[0];
      ZippedRun(if i > |pairs| then pairs else Inserted(pairs, i, (target, receiver)), inserts[1..])
  }

  /** After any run of insertions the pairs are those of the same run on pairs, and
      the entries around them are untouched. */
  lemma {:induction false} RunKeepsPairing(list: seq<nat>, c: Channel, inserts: seq<(nat, nat, nat)>)
    requires Consistent(c, |list|)
    ensures var (after, d) := PairRun(list, c, inserts);
            && Consistent(d, |after|)
            && Pairs(after, d) == ZippedRun(Pairs(list, c), inserts)
            && d.targetOffset == c.targetOffset && after[..d.targetOffset] == list[..c.targetOffset]
            && after[d.sinkOffset + d.sinkCount..] == list[c.sinkOffset + c.sinkCount..]
    decreases |inserts|
  {
    if inserts != [] {
      var (i, target, receiver) := inserts[0];
      if i > c.targetCount {
        RunKeepsPairing(list, c, inserts[1..]);
      } else {
        PairIsInserted(list, c, i, target, receiver);
        RunKeepsPairing(WithPair(list, c, i, target, receiver), Grown(c), inserts[1..]);
      }
    }
  }
}

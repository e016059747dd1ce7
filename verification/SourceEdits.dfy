/** Text edits of one SQL source and what they do to its coordinates.

    `Edited` is the reference meaning: the edits are applied one at a time, the
    last one first, each as a plain splice of the untouched prefix.  `MapPoint`
    is the arithmetic of the rebase code.  The lemmas tie the two together. */
module SourceEdits {
  import opened Wrappers

  const INT32_MAX := 0x7FFF_FFFF

  /** One edit record; `replacement` is None for a NULL pointer.  The bounds are
      unsigned in the program; the validity test turns negative ones down anyway. */
  datatype Edit = Edit(sourceStart: int, sourceEnd: int, replacement: Option<string>) {
    function Text(): string {
      if replacement.Some? then replacement.value else ""
    }

    function Delta(): int {
      |Text()| - (sourceEnd - sourceStart)
    }
  }

  // ----- what a valid edit list is

  ghost predicate Proper(e: Edit, length: int) {
    0 <= e.sourceStart < e.sourceEnd <= length && e.Text() != ""
  }

  ghost predicate Before(edits: seq<Edit>, i: nat, j: nat)
    requires i < |edits| && j < |edits|
  {
    edits[i].sourceEnd <= edits[j].sourceStart
  }

  /** Sorted, pairwise disjoint, nonempty, in bounds. */
  ghost predicate WellFormed(edits: seq<Edit>, length: int) {
    && (forall i | 0 <= i < |edits| :: Proper(edits[i], length))
    && (forall i, j {:trigger Before(edits, i, j)} | 0 <= i < j < |edits| :: Before(edits, i, j))
  }

  /** The summed growth of the first k edits. */
  function DeltaUpTo(edits: seq<Edit>, k: nat): int
    requires k <= |edits|
  {
    if k == 0 then 0 else DeltaUpTo(edits, k - 1) + edits[k - 1].Delta()
  }

  function TotalDelta(edits: seq<Edit>): int {
    DeltaUpTo(edits, |edits|)
  }

  ghost predicate Valid(edits: seq<Edit>, oldLength: nat, newLength: nat) {
    && edits != []
    && oldLength <= INT32_MAX
    && newLength <= INT32_MAX
    && WellFormed(edits, oldLength)
    && newLength == oldLength + TotalDelta(edits)
  }

  /** Where the text before edit k starts: the end of edit k - 1. */
  function Cut(edits: seq<Edit>, k: nat): int
    requires k <= |edits|
  {
    if k == 0 then 0 else edits[k - 1].sourceEnd
  }

  /** Whatever follows edit k - 1 still fits behind it in the new text. */
  lemma {:induction false} RestFits(edits: seq<Edit>, length: int, k: nat)
    requires WellFormed(edits, length) && k <= |edits| && 0 <= length
    ensures Cut(edits, k) + DeltaUpTo(edits, k) <= length + TotalDelta(edits)
    decreases |edits| - k
  {
    if k < |edits| {
      RestFits(edits, length, k + 1);
      assert Proper(edits[k], length);
      assert 0 < k ==> Before(edits, k - 1, k);
    }
  }

  /** The range check the patch engine makes before it trusts an edit list. */
  method EditsValid(edits: seq<Edit>, oldLength: nat, newLength: nat) returns (ok: bool)
    ensures ok <==> Valid(edits, oldLength, newLength)
  {
    if edits == [] || oldLength > INT32_MAX || newLength > INT32_MAX {
      return false;
    }
    var oldCursor, newCursor := 0, 0;
    for index := 0 to |edits|
      invariant oldCursor == Cut(edits, index) <= oldLength
      invariant newCursor == oldCursor + DeltaUpTo(edits, index)
      invariant 0 <= newCursor <= newLength
      invariant forall i | 0 <= i < index :: Proper(edits[i], oldLength) && edits[i].sourceEnd <= oldCursor
      invariant forall i, j {:trigger Before(edits, i, j)} | 0 <= i < j < index :: Before(edits, i, j)
    {
      var edit := edits[index];
      if WellFormed(edits, oldLength) {
        assert Proper(edit, oldLength);
        assert 0 < index ==> Before(edits, index - 1, index);
        RestFits(edits, oldLength, index + 1);
      }
      if edit.sourceStart < oldCursor || edit.sourceStart >= edit.sourceEnd || edit.sourceEnd > oldLength
         || edit.replacement.None? || |edit.replacement.value| == 0
      {
        return false;
      }
      var gap := edit.sourceStart - oldCursor;
      if gap > newLength - newCursor {
        return false;
      }
      newCursor := newCursor + gap;
      if |edit.replacement.value| > newLength - newCursor {
        return false;
      }
      newCursor := newCursor + |edit.replacement.value|;
      oldCursor := edit.sourceEnd;
    }
    return oldLength - oldCursor == newLength - newCursor;
  }

  // ----- the reference meaning of an edit list

  /** The edits lo..hi - 1 lie between the two points. */
  ghost predicate Inside(edits: seq<Edit>, lo: nat, hi: nat, p: nat, q: nat) {
    && lo <= hi <= |edits|
    && p <= q
    && (lo < hi ==> p <= edits[lo].sourceStart && edits[hi - 1].sourceEnd <= q)
  }

  /** Taking the last edit away leaves the others inside the range before it. */
  lemma LastInside(edits: seq<Edit>, length: int, lo: nat, hi: nat, p: nat, q: nat)
    requires WellFormed(edits, length) && Inside(edits, lo, hi, p, q) && lo < hi
    ensures Proper(edits[hi - 1], length) && Inside(edits, lo, hi - 1, p, edits[hi - 1].sourceStart)
  {
    assert Proper(edits[hi - 1], length) && Proper(edits[lo], length);
    assert lo < hi - 1 ==> Before(edits, lo, hi - 1) && Before(edits, hi - 2, hi - 1);
  }

  /** source[p..q] after splicing in the edits lo..hi - 1, the last one first. */
  ghost function EditedBetween(source: string, edits: seq<Edit>, lo: nat, hi: nat, p: nat, q: nat): string
    requires WellFormed(edits, |source|) && q <= |source| && Inside(edits, lo, hi, p, q)
  {
    if lo == hi then source[p..q]
    else
      var e := edits[hi - 1];
      LastInside(edits, |source|, lo, hi, p, q);
      EditedBetween(source, edits, lo, hi - 1, p, e.sourceStart) + e.Text() + source[e.sourceEnd..q]
  }

  /** The whole source after all edits. */
  ghost function Edited(source: string, edits: seq<Edit>): string
    requires WellFormed(edits, |source|)
  {
    assert edits != [] ==> Proper(edits[|edits| - 1], |source|);
    EditedBetween(source, edits, 0, |edits|, 0, |source|)
  }

  lemma {:induction false} EditedLength(source: string, edits: seq<Edit>, lo: nat, hi: nat, p: nat, q: nat)
    requires WellFormed(edits, |source|) && q <= |source| && Inside(edits, lo, hi, p, q)
    ensures |EditedBetween(source, edits, lo, hi, p, q)| == q - p + DeltaUpTo(edits, hi) - DeltaUpTo(edits, lo)
    ensures p < q ==> EditedBetween(source, edits, lo, hi, p, q) != ""
  {
    if lo < hi {
      LastInside(edits, |source|, lo, hi, p, q);
      EditedLength(source, edits, lo, hi - 1, p, edits[hi - 1].sourceStart);
    }
  }

  lemma Associative(a: string, b: string, c: string, d: string)
    ensures (a + b) + c + d == a + (b + c + d)
  {
  }

  /** An edited range splits at any point that no edit covers. */
  lemma {:induction false} EditedSplit(source: string, edits: seq<Edit>, lo: nat, k: nat, hi: nat, p: nat, m: nat,
                                       q: nat)
    requires WellFormed(edits, |source|) && q <= |source|
    requires Inside(edits, lo, k, p, m) && Inside(edits, k, hi, m, q) && Inside(edits, lo, hi, p, q)
    ensures EditedBetween(source, edits, lo, hi, p, q)
         == EditedBetween(source, edits, lo, k, p, m) + EditedBetween(source, edits, k, hi, m, q)
    decreases hi
  {
    if k < hi {
      var e := edits[hi - 1];
      LastInside(edits, |source|, k, hi, m, q);
      LastInside(edits, |source|, lo, hi, p, q);
      EditedSplit(source, edits, lo, k, hi - 1, p, m, e.sourceStart);
      Associative(EditedBetween(source, edits, lo, k, p, m), EditedBetween(source, edits, k, hi - 1, m, e.sourceStart),
                  e.Text(), source[e.sourceEnd..q]);
    } else if lo < k {
      assert Proper(edits[k - 1], |source|);
      assert source[edits[k - 1].sourceEnd..q] == source[edits[k - 1].sourceEnd..m] + source[m..q];
    } else {
      assert source[p..q] == source[p..m] + source[m..q];
    }
  }

  // ----- the point map

  /** How many edits end at or before the point, looking at the first k. */
  function CountUpTo(edits: seq<Edit>, point: int, k: nat): (c: nat)
    requires k <= |edits|
    ensures c <= k
    ensures 0 < c ==> edits[c - 1].sourceEnd <= point
    ensures c < k ==> point < edits[c].sourceEnd
  {
    if k == 0 || edits[k - 1].sourceEnd <= point then k else CountUpTo(edits, point, k - 1)
  }

  function PrefixCount(edits: seq<Edit>, point: int): nat {
    CountUpTo(edits, point, |edits|)
  }

  /** A point strictly inside an edit has no identity in the new text. */
  ghost predicate Accepted(edits: seq<Edit>, point: int) {
    forall i | 0 <= i < |edits| :: !Covers(edits[i], point)
  }

  ghost predicate Covers(e: Edit, point: int) {
    e.sourceStart < point < e.sourceEnd
  }

  function MapPoint(edits: seq<Edit>, point: int): int {
    point + DeltaUpTo(edits, PrefixCount(edits, point))
  }

  /** p lies in the gap before edit k: at or after the end of edit k - 1, at or
      before the start of edit k. */
  ghost predicate Gap(edits: seq<Edit>, length: int, k: nat, p: int) {
    && k <= |edits|
    && 0 <= p <= length
    && (0 < k ==> edits[k - 1].sourceEnd <= p)
    && (k < |edits| ==> p <= edits[k].sourceStart)
  }

  /** The edits before a gap point end at or before it, the others start at or after it. */
  lemma GapDivides(edits: seq<Edit>, length: int, k: nat, p: int, i: nat)
    requires WellFormed(edits, length) && Gap(edits, length, k, p) && i < |edits|
    ensures Proper(edits[i], length)
    ensures if i < k then edits[i].sourceEnd <= p else p <= edits[i].sourceStart
  {
    assert Proper(edits[i], length);
    if i < k - 1 {
      assert Before(edits, i, k - 1) && Proper(edits[k - 1], length);
    } else if k < i {
      assert Before(edits, k, i) && Proper(edits[k], length);
    }
  }

  lemma EndsOrdered(edits: seq<Edit>, length: int, i: nat, j: nat)
    requires WellFormed(edits, length) && i <= j < |edits|
    ensures edits[i].sourceEnd <= edits[j].sourceEnd
  {
    assert i < j ==> Before(edits, i, j) && Proper(edits[j], length);
  }

  /** A point in gap k is accepted, and exactly k edits end at or before it. */
  lemma GapAccepted(edits: seq<Edit>, length: int, k: nat, p: int)
    requires WellFormed(edits, length) && Gap(edits, length, k, p)
    ensures Accepted(edits, p) && PrefixCount(edits, p) == k
    ensures MapPoint(edits, p) == p + DeltaUpTo(edits, k)
  {
    forall i | 0 <= i < |edits| ensures !Covers(edits[i], p) {
      GapDivides(edits, length, k, p, i);
    }
    var c := PrefixCount(edits, p);
    if c < k {
      GapDivides(edits, length, k, p, c);
    } else if k < c {
      GapDivides(edits, length, k, p, c - 1);
    }
  }

  /** Acceptance is what the code tests: the first edit ending after the point
      does not start before it. */
  lemma AcceptedGap(edits: seq<Edit>, length: int, p: int)
    requires WellFormed(edits, length) && 0 <= p <= length
    ensures Accepted(edits, p) <==> Gap(edits, length, PrefixCount(edits, p), p)
  {
    var k := PrefixCount(edits, p);
    if Gap(edits, length, k, p) {
      GapAccepted(edits, length, k, p);
    } else {
      assert Proper(edits[k], length) && Covers(edits[k], p);
    }
  }

  /** Both ends of an edit lie in gaps, and so do the ends of the source. */
  lemma EdgeGaps(edits: seq<Edit>, length: int, i: nat)
    requires WellFormed(edits, length) && i < |edits|
    ensures Proper(edits[i], length)
    ensures Gap(edits, length, i, edits[i].sourceStart)
    ensures Gap(edits, length, i + 1, edits[i].sourceEnd)
  {
    assert Proper(edits[i], length);
    assert i + 1 < |edits| ==> Before(edits, i, i + 1);
    assert 0 < i ==> Before(edits, i - 1, i);
  }

  lemma OuterGaps(edits: seq<Edit>, length: int)
    requires WellFormed(edits, length) && 0 <= length
    ensures Gap(edits, length, 0, 0) && Gap(edits, length, |edits|, length)
  {
    assert edits != [] ==> Proper(edits[0], length) && Proper(edits[|edits| - 1], length);
  }

  lemma GapsInside(edits: seq<Edit>, length: int, j: nat, p: nat, k: nat, q: nat)
    requires WellFormed(edits, length) && Gap(edits, length, j, p) && Gap(edits, length, k, q)
    requires p < q || (p == q && j <= k)
    ensures Inside(edits, j, k, p, q)
  {
    if k < j {
      GapDivides(edits, length, j, p, k);
    } else if j < k {
      GapDivides(edits, length, j, p, j);
      GapDivides(edits, length, k, q, k - 1);
    }
  }

  // ----- the text between two mapped points

  lemma MiddleSlice(a: string, b: string, c: string)
    ensures (a + b + c)[|a|..|a| + |b|] == b
  {
  }

  /** Two gap points cut the edited text in three. */
  lemma SplitInThree(source: string, edits: seq<Edit>, j: nat, p: nat, k: nat, q: nat)
    requires WellFormed(edits, |source|) && Gap(edits, |source|, j, p) && Gap(edits, |source|, k, q)
    requires p < q || (p == q && j <= k)
    ensures Inside(edits, 0, j, 0, p) && Inside(edits, j, k, p, q) && Inside(edits, k, |edits|, q, |source|)
    ensures Edited(source, edits)
         == EditedBetween(source, edits, 0, j, 0, p) + EditedBetween(source, edits, j, k, p, q)
            + EditedBetween(source, edits, k, |edits|, q, |source|)
  {
    OuterGaps(edits, |source|);
    GapsInside(edits, |source|, 0, 0, j, p);
    GapsInside(edits, |source|, j, p, k, q);
    GapsInside(edits, |source|, 0, 0, k, q);
    GapsInside(edits, |source|, k, q, |edits|, |source|);
    EditedSplit(source, edits, 0, k, |edits|, 0, q, |source|);
    EditedSplit(source, edits, 0, j, k, 0, p, q);
  }

  /** The new text between two gap points, in coordinates of either text. */
  lemma GapMeaning(source: string, edits: seq<Edit>, j: nat, p: nat, k: nat, q: nat)
    requires WellFormed(edits, |source|) && Gap(edits, |source|, j, p) && Gap(edits, |source|, k, q)
    requires p < q || (p == q && j <= k)
    ensures Inside(edits, j, k, p, q)
    ensures |Edited(source, edits)| == |source| + TotalDelta(edits)
    ensures 0 <= p + DeltaUpTo(edits, j) <= q + DeltaUpTo(edits, k) <= |Edited(source, edits)|
    ensures p < q ==> p + DeltaUpTo(edits, j) < q + DeltaUpTo(edits, k)
    ensures Edited(source, edits)[p + DeltaUpTo(edits, j)..q + DeltaUpTo(edits, k)]
         == EditedBetween(source, edits, j, k, p, q)
  {
    SplitInThree(source, edits, j, p, k, q);
    EditedLength(source, edits, 0, j, 0, p);
    EditedLength(source, edits, j, k, p, q);
    EditedLength(source, edits, k, |edits|, q, |source|);
    MiddleSlice(EditedBetween(source, edits, 0, j, 0, p), EditedBetween(source, edits, j, k, p, q),
                EditedBetween(source, edits, k, |edits|, q, |source|));
  }

  lemma EditedWhole(source: string, edits: seq<Edit>)
    requires WellFormed(edits, |source|)
    ensures |Edited(source, edits)| == |source| + TotalDelta(edits)
  {
    OuterGaps(edits, |source|);
    GapMeaning(source, edits, 0, 0, 0, 0);
  }

  /** Edit k is counted at an accepted point exactly when it lies before the point;
      otherwise it lies behind it. */
  lemma CountedBefore(edits: seq<Edit>, length: int, p: int, k: nat)
    requires WellFormed(edits, length) && 0 <= p <= length && Accepted(edits, p) && k < |edits|
    ensures Proper(edits[k], length)
    ensures k < PrefixCount(edits, p) ==> edits[k].sourceEnd <= p
    ensures PrefixCount(edits, p) <= k ==> p <= edits[k].sourceStart
  {
    AcceptedGap(edits, length, p);
    GapDivides(edits, length, PrefixCount(edits, p), p, k);
  }

  /** Between two points of one gap the text is carried over unchanged. */
  lemma GapPlain(source: string, edits: seq<Edit>, k: nat, p: nat, q: nat)
    requires WellFormed(edits, |source|) && Gap(edits, |source|, k, p) && Gap(edits, |source|, k, q) && p <= q
    ensures 0 <= p + DeltaUpTo(edits, k) <= q + DeltaUpTo(edits, k) <= |Edited(source, edits)|
    ensures Edited(source, edits)[p + DeltaUpTo(edits, k)..q + DeltaUpTo(edits, k)] == source[p..q]
  {
    GapMeaning(source, edits, k, p, k, q);
  }

  lemma CountBound(edits: seq<Edit>, p: int)
    ensures PrefixCount(edits, p) <= |edits|
    ensures DeltaUpTo(edits, 0) == 0
  {
  }

  /** Text meaning of mapped points: the new text between two mapped points is
      the old text between the points with exactly its own edits applied. */
  lemma FragmentMeaning(source: string, edits: seq<Edit>, p: nat, q: nat)
    requires WellFormed(edits, |source|) && p <= q <= |source|
    requires Accepted(edits, p) && Accepted(edits, q)
    ensures Inside(edits, PrefixCount(edits, p), PrefixCount(edits, q), p, q)
    ensures 0 <= MapPoint(edits, p) <= MapPoint(edits, q) <= |Edited(source, edits)|
    ensures Edited(source, edits)[MapPoint(edits, p)..MapPoint(edits, q)]
         == EditedBetween(source, edits, PrefixCount(edits, p), PrefixCount(edits, q), p, q)
  {
    hide WellFormed, Accepted, Gap, Inside, Edited, EditedBetween, DeltaUpTo, PrefixCount;
    CountBound(edits, p);
    CountBound(edits, q);
    AcceptedGap(edits, |source|, p);
    AcceptedGap(edits, |source|, q);
    GapMeaning(source, edits, PrefixCount(edits, p), p, PrefixCount(edits, q), q);
  }

  // ----- consequences for single points

  lemma Blank(length: nat) returns (s: string)
    ensures |s| == length
  {
    s := seq(length, _ => ' ');
  }

  /** Gap points keep their order under the map, and stay in bounds. */
  lemma GapOrder(edits: seq<Edit>, length: int, j: nat, p: nat, k: nat, q: nat)
    requires WellFormed(edits, length) && Gap(edits, length, j, p) && Gap(edits, length, k, q)
    requires p < q || (p == q && j <= k)
    ensures 0 <= p + DeltaUpTo(edits, j) <= q + DeltaUpTo(edits, k) <= length + TotalDelta(edits)
    ensures p < q ==> p + DeltaUpTo(edits, j) < q + DeltaUpTo(edits, k)
  {
    var source := Blank(length);
    GapMeaning(source, edits, j, p, k, q);
  }

  /** Accepted points keep their order; distinct ones stay distinct. */
  lemma MapStrict(edits: seq<Edit>, length: int, p: nat, q: nat)
    requires WellFormed(edits, length) && p < q <= length
    requires Accepted(edits, p) && Accepted(edits, q)
    ensures 0 <= MapPoint(edits, p) < MapPoint(edits, q) <= length + TotalDelta(edits)
  {
    AcceptedGap(edits, length, p);
    AcceptedGap(edits, length, q);
    GapOrder(edits, length, PrefixCount(edits, p), p, PrefixCount(edits, q), q);
  }

  /** The bounds test on a mapped point can never fail. */
  lemma MapInBounds(edits: seq<Edit>, length: int, p: nat)
    requires WellFormed(edits, length) && p <= length && Accepted(edits, p)
    ensures 0 <= MapPoint(edits, p) <= length + TotalDelta(edits)
  {
    AcceptedGap(edits, length, p);
    GapOrder(edits, length, PrefixCount(edits, p), p, PrefixCount(edits, p), p);
  }

  /** The ends of the source are always accepted and map to the ends of the new text. */
  lemma MapEnds(edits: seq<Edit>, length: int)
    requires WellFormed(edits, length) && 0 <= length
    ensures Accepted(edits, 0) && MapPoint(edits, 0) == 0
    ensures Accepted(edits, length) && MapPoint(edits, length) == length + TotalDelta(edits)
  {
    OuterGaps(edits, length);
    GapAccepted(edits, length, 0, 0);
    GapAccepted(edits, length, |edits|, length);
  }

  /** The running delta never leaves the 32-bit range, so the 64-bit sum cannot wrap. */
  lemma DeltaInRange(edits: seq<Edit>, length: int, k: nat)
    requires WellFormed(edits, length) && k <= |edits| && 0 <= length
    ensures -length <= DeltaUpTo(edits, k) <= length + TotalDelta(edits)
  {
    OuterGaps(edits, length);
    if k == 0 {
      GapOrder(edits, length, 0, 0, |edits|, length);
    } else {
      EdgeGaps(edits, length, k - 1);
      GapOrder(edits, length, k, edits[k - 1].sourceEnd, k, edits[k - 1].sourceEnd);
    }
  }

  /** Both ends of an edit are accepted: before its start and after its end. */
  lemma EdgesMapped(edits: seq<Edit>, length: int, i: nat)
    requires WellFormed(edits, length) && i < |edits|
    ensures Proper(edits[i], length)
    ensures Accepted(edits, edits[i].sourceStart) && Accepted(edits, edits[i].sourceEnd)
    ensures MapPoint(edits, edits[i].sourceStart) == edits[i].sourceStart + DeltaUpTo(edits, i)
    ensures MapPoint(edits, edits[i].sourceEnd) == edits[i].sourceEnd + DeltaUpTo(edits, i + 1)
  {
    EdgeGaps(edits, length, i);
    GapAccepted(edits, length, i, edits[i].sourceStart);
    GapAccepted(edits, length, i + 1, edits[i].sourceEnd);
  }

  /** Between its own ends an edit leaves its replacement. */
  lemma EditAlone(source: string, edits: seq<Edit>, i: nat)
    requires WellFormed(edits, |source|) && i < |edits| && Proper(edits[i], |source|)
    requires Inside(edits, i, i + 1, edits[i].sourceStart, edits[i].sourceEnd)
    ensures EditedBetween(source, edits, i, i + 1, edits[i].sourceStart, edits[i].sourceEnd) == edits[i].Text()
  {
    hide WellFormed, Proper;
    var e := edits[i];
    ProperBounds(e, |source|);
    LastInside(edits, |source|, i, i + 1, e.sourceStart, e.sourceEnd);
    Bare(source, e.sourceStart, e.sourceEnd, e.Text());
  }

  lemma ProperBounds(e: Edit, length: int)
    requires Proper(e, length)
    ensures 0 <= e.sourceStart < e.sourceEnd <= length
  {
  }

  lemma Bare(source: string, p: nat, q: nat, text: string)
    requires p <= q <= |source|
    ensures source[p..p] + text + source[q..q] == text
  {
  }

  /** The span of edit i holds its replacement in the new text. */
  lemma ReplacedText(source: string, edits: seq<Edit>, i: nat)
    requires WellFormed(edits, |source|) && i < |edits|
    ensures Accepted(edits, edits[i].sourceStart) && Accepted(edits, edits[i].sourceEnd)
    ensures 0 <= MapPoint(edits, edits[i].sourceStart) <= MapPoint(edits, edits[i].sourceEnd)
                 <= |Edited(source, edits)|
    ensures Edited(source, edits)[MapPoint(edits, edits[i].sourceStart)..MapPoint(edits, edits[i].sourceEnd)]
         == edits[i].Text()
  {
    hide WellFormed, MapPoint, Accepted, DeltaUpTo, Edited, EditedBetween, Gap, Inside;
    EdgesMapped(edits, |source|, i);
    EdgeGaps(edits, |source|, i);
    GapMeaning(source, edits, i, edits[i].sourceStart, i + 1, edits[i].sourceEnd);
    EditAlone(source, edits, i);
  }

  /** A byte outside every edit keeps its value at its mapped position. */
  lemma UneditedByte(source: string, edits: seq<Edit>, p: nat)
    requires WellFormed(edits, |source|) && p < |source|
    requires forall i | 0 <= i < |edits| :: !(edits[i].sourceStart <= p < edits[i].sourceEnd)
    ensures Accepted(edits, p) && Accepted(edits, p + 1)
    ensures 0 <= MapPoint(edits, p) < |Edited(source, edits)|
    ensures MapPoint(edits, p + 1) == MapPoint(edits, p) + 1
    ensures Edited(source, edits)[MapPoint(edits, p)] == source[p]
  {
    var k := PrefixCount(edits, p);
    AcceptedGap(edits, |source|, p);
    GapAccepted(edits, |source|, k, p + 1);
    GapMeaning(source, edits, k, p, k, p + 1);
    assert Edited(source, edits)[MapPoint(edits, p)]
        == Edited(source, edits)[MapPoint(edits, p)..MapPoint(edits, p + 1)][0];
  }
}

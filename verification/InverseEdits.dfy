/** Undoing a rebase: the edit list that turns the new text back into the old one. */
module InverseEdits {
  import opened Wrappers
  import opened SourceEdits

  /** Edit i with source and replacement exchanged, at its place in the new text. */
  ghost function InverseEdit(source: string, edits: seq<Edit>, i: nat): Edit
    requires WellFormed(edits, |source|) && i < |edits|
  {
    assert Proper(edits[i], |source|);
    Edit(edits[i].sourceStart + DeltaUpTo(edits, i), edits[i].sourceEnd + DeltaUpTo(edits, i + 1),
         Some(source[edits[i].sourceStart..edits[i].sourceEnd]))
  }

  ghost function Inverse(source: string, edits: seq<Edit>): (r: seq<Edit>)
    requires WellFormed(edits, |source|)
    ensures |r| == |edits|
  {
    seq(|edits|, i requires 0 <= i < |edits| && WellFormed(edits, |source|) => InverseEdit(source, edits, i))
  }

  /** The inverse edits sit where the edits map to, and hold the text they replaced. */
  lemma InverseAt(source: string, edits: seq<Edit>, i: nat)
    requires WellFormed(edits, |source|) && i < |edits|
    ensures 0 <= edits[i].sourceStart < edits[i].sourceEnd <= |source|
    ensures var r := Inverse(source, edits)[i];
            && r.Text() == source[edits[i].sourceStart..edits[i].sourceEnd]
            && r.sourceStart == MapPoint(edits, edits[i].sourceStart)
            && r.sourceEnd == MapPoint(edits, edits[i].sourceEnd)
            && Proper(r, |source| + TotalDelta(edits))
  {
    EdgesMapped(edits, |source|, i);
    EdgeGaps(edits, |source|, i);
    GapOrder(edits, |source|, i, edits[i].sourceStart, i + 1, edits[i].sourceEnd);
  }

  lemma {:induction false} OppositeDeltas(edits: seq<Edit>, others: seq<Edit>, k: nat)
    requires k <= |edits| == |others|
    requires forall i | 0 <= i < k :: edits[i].Delta() == -others[i].Delta()
    ensures DeltaUpTo(edits, k) == -DeltaUpTo(others, k)
  {
    if k > 0 {
      OppositeDeltas(edits, others, k - 1);
    }
  }

  lemma InverseDelta(source: string, edits: seq<Edit>, k: nat)
    requires WellFormed(edits, |source|) && k <= |edits|
    ensures DeltaUpTo(Inverse(source, edits), k) == -DeltaUpTo(edits, k)
  {
    forall i | 0 <= i < k ensures Inverse(source, edits)[i].Delta() == -edits[i].Delta() {
      assert Proper(edits[i], |source|);
    }
    OppositeDeltas(Inverse(source, edits), edits, k);
  }

  lemma InverseOrdered(source: string, edits: seq<Edit>, i: nat, j: nat)
    requires WellFormed(edits, |source|) && i < j < |edits|
    ensures Inverse(source, edits)[i].sourceEnd <= Inverse(source, edits)[j].sourceStart
  {
    EdgeGaps(edits, |source|, i);
    EdgeGaps(edits, |source|, j);
    assert Before(edits, i, j);
    GapOrder(edits, |source|, i + 1, edits[i].sourceEnd, j, edits[j].sourceStart);
  }

  lemma InverseWellFormed(source: string, edits: seq<Edit>)
    requires WellFormed(edits, |source|)
    ensures WellFormed(Inverse(source, edits), |source| + TotalDelta(edits))
  {
    var inverse := Inverse(source, edits);
    forall i | 0 <= i < |edits| ensures Proper(inverse[i], |source| + TotalDelta(edits)) {
      InverseAt(source, edits, i);
    }
    forall i, j | 0 <= i < j < |edits| ensures Before(inverse, i, j) {
      InverseOrdered(source, edits, i, j);
    }
  }

  /** The inverse of a valid list is valid, with the two lengths exchanged. */
  lemma InverseValid(source: string, edits: seq<Edit>, newLength: nat)
    requires Valid(edits, |source|, newLength)
    ensures Valid(Inverse(source, edits), newLength, |source|)
  {
    InverseWellFormed(source, edits);
    InverseDelta(source, edits, |edits|);
  }

  /** Gaps map to gaps of the inverse. */
  lemma GapMapped(source: string, edits: seq<Edit>, k: nat, p: nat)
    requires WellFormed(edits, |source|) && Gap(edits, |source|, k, p)
    ensures Gap(Inverse(source, edits), |source| + TotalDelta(edits), k, p + DeltaUpTo(edits, k))
  {
    GapOrder(edits, |source|, k, p, k, p);
  }

  /** MapThereAndBack for any list whose running deltas are the opposite ones. */
  lemma BackAgain(edits: seq<Edit>, inverse: seq<Edit>, length: int, newLength: int, k: nat, p: int)
    requires WellFormed(edits, length) && WellFormed(inverse, newLength) && |inverse| == |edits|
    requires Gap(edits, length, k, p) && Gap(inverse, newLength, k, p + DeltaUpTo(edits, k))
    requires DeltaUpTo(inverse, k) == -DeltaUpTo(edits, k)
    ensures Accepted(inverse, MapPoint(edits, p)) && MapPoint(inverse, MapPoint(edits, p)) == p
  {
    GapAccepted(edits, length, k, p);
    GapAccepted(inverse, newLength, k, p + DeltaUpTo(edits, k));
  }

  /** Mapping an accepted point there and back is the identity. */
  lemma MapThereAndBack(source: string, edits: seq<Edit>, p: nat)
    requires WellFormed(edits, |source|) && p <= |source| && Accepted(edits, p)
    ensures Accepted(Inverse(source, edits), MapPoint(edits, p))
    ensures MapPoint(Inverse(source, edits), MapPoint(edits, p)) == p
  {
    var k := PrefixCount(edits, p);
    AcceptedGap(edits, |source|, p);
    InverseWellFormed(source, edits);
    GapMapped(source, edits, k, p);
    InverseDelta(source, edits, k);
    BackAgain(edits, Inverse(source, edits), |source|, |source| + TotalDelta(edits), k, p);
  }

  lemma UndoInside(source: string, edits: seq<Edit>, k: nat, p: nat, q: int)
    requires WellFormed(edits, |source|) && Gap(edits, |source|, k, p) && q == p + DeltaUpTo(edits, k)
    ensures WellFormed(Inverse(source, edits), |Edited(source, edits)|)
    ensures 0 <= q <= |Edited(source, edits)|
    ensures Inside(Inverse(source, edits), 0, k, 0, q)
  {
    InverseWellFormed(source, edits);
    GapMeaning(source, edits, k, p, k, p);
    GapMapped(source, edits, k, p);
    if k > 0 {
      InverseAt(source, edits, 0);
    }
  }

  lemma JoinThree(s: string, a: nat, b: nat, c: nat)
    requires a <= b <= c <= |s|
    ensures s[..c] == s[..a] + s[a..b] + s[b..c]
  {
  }

  lemma LastSplice(target: string, edits: seq<Edit>, k: nat, q: nat, before: string, text: string, after: string,
                   whole: string)
    requires WellFormed(edits, |target|) && 0 < k && q <= |target| && Inside(edits, 0, k, 0, q)
    requires Proper(edits[k - 1], |target|) && Inside(edits, 0, k - 1, 0, edits[k - 1].sourceStart)
    requires EditedBetween(target, edits, 0, k - 1, 0, edits[k - 1].sourceStart) == before
    requires edits[k - 1].Text() == text && target[edits[k - 1].sourceEnd..q] == after
    requires whole == before + text + after
    ensures EditedBetween(target, edits, 0, k, 0, q) == whole
  {
  }

  lemma InverseFields(source: string, edits: seq<Edit>, i: nat)
    requires WellFormed(edits, |source|) && i < |edits|
    ensures Proper(edits[i], |source|)
    ensures var r := Inverse(source, edits)[i];
            && r.sourceStart == edits[i].sourceStart + DeltaUpTo(edits, i)
            && r.sourceEnd == edits[i].sourceEnd + DeltaUpTo(edits, i + 1)
            && r.Text() == source[edits[i].sourceStart..edits[i].sourceEnd]
  {
  }

  lemma UndoNone(source: string, edits: seq<Edit>, p: nat)
    requires WellFormed(edits, |source|) && Gap(edits, |source|, 0, p)
    requires p <= |Edited(source, edits)|
    requires WellFormed(Inverse(source, edits), |Edited(source, edits)|)
    ensures EditedBetween(Edited(source, edits), Inverse(source, edits), 0, 0, 0, p) == source[..p]
  {
    OuterGaps(edits, |source|);
    GapPlain(source, edits, 0, 0, p);
  }

  /** What the last inverse edit before a gap point puts back, and the text after it. */
  lemma UndoLast(source: string, edits: seq<Edit>, k: nat, p: nat, q: int)
    requires WellFormed(edits, |source|) && Gap(edits, |source|, k, p) && q == p + DeltaUpTo(edits, k) && 0 < k
    ensures var e, r := edits[k - 1], Inverse(source, edits)[k - 1];
            && Proper(e, |source|) && Gap(edits, |source|, k - 1, e.sourceStart)
            && r.sourceStart == e.sourceStart + DeltaUpTo(edits, k - 1)
            && r.Text() == source[e.sourceStart..e.sourceEnd]
            && 0 <= r.sourceEnd <= q <= |Edited(source, edits)|
            && Edited(source, edits)[r.sourceEnd..q] == source[e.sourceEnd..p]
            && source[..p] == source[..e.sourceStart] + source[e.sourceStart..e.sourceEnd] + source[e.sourceEnd..p]
  {
    var e := edits[k - 1];
    EdgeGaps(edits, |source|, k - 1);
    InverseFields(source, edits, k - 1);
    assert Inverse(source, edits)[k - 1].sourceEnd == e.sourceEnd + DeltaUpTo(edits, k);
    GapPlain(source, edits, k, e.sourceEnd, p);
    JoinThree(source, e.sourceStart, e.sourceEnd, p);
  }

  /** Undoing the edits before a gap point restores the old text up to it. */
  lemma {:induction false} UndoPrefix(source: string, edits: seq<Edit>, k: nat, p: nat, q: int)
    requires WellFormed(edits, |source|) && Gap(edits, |source|, k, p) && q == p + DeltaUpTo(edits, k)
    ensures WellFormed(Inverse(source, edits), |Edited(source, edits)|)
    ensures 0 <= q <= |Edited(source, edits)|
    ensures Inside(Inverse(source, edits), 0, k, 0, q)
    ensures EditedBetween(Edited(source, edits), Inverse(source, edits), 0, k, 0, q) == source[..p]
    decreases k
  {
    UndoInside(source, edits, k, p, q);
    if k == 0 {
      UndoNone(source, edits, p);
    } else {
      var e, r := edits[k - 1], Inverse(source, edits)[k - 1];
      UndoLast(source, edits, k, p, q);
      UndoPrefix(source, edits, k - 1, e.sourceStart, r.sourceStart);
      LastSplice(Edited(source, edits), Inverse(source, edits), k, q, source[..e.sourceStart],
                 source[e.sourceStart..e.sourceEnd], source[e.sourceEnd..p], source[..p]);
    }
  }

  /** Applying the inverse to the new text gives the old text back. */
  lemma UndoRestoresSource(source: string, edits: seq<Edit>)
    requires WellFormed(edits, |source|)
    ensures WellFormed(Inverse(source, edits), |Edited(source, edits)|)
    ensures Edited(Edited(source, edits), Inverse(source, edits)) == source
  {
    OuterGaps(edits, |source|);
    GapMeaning(source, edits, 0, 0, |edits|, |source|);
    UndoPrefix(source, edits, |edits|, |source|, |Edited(source, edits)|);
    assert source[..|source|] == source;
  }
}

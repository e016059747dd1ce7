/** The cursor that maps points without rescanning the edits before them. */
module RebaseCursor {
  import opened Wrappers
  import opened SourceEdits
  import opened ProtoTree

  class Cursor {
    const edits: seq<Edit>
    const oldLength: nat
    const newLength: nat
    var prefixCount: nat
    var prefixDelta: int

    constructor (edits: seq<Edit>, oldLength: nat, newLength: nat)
      ensures this.edits == edits && this.oldLength == oldLength && this.newLength == newLength
      ensures Coherent() && prefixCount == 0
    {
      this.edits, this.oldLength, this.newLength := edits, oldLength, newLength;
      prefixCount, prefixDelta := 0, 0;
    }

    /** The cached delta belongs to the cached count, whatever was asked before. */
    ghost predicate Coherent()
      reads this
    {
      prefixCount <= |edits| && prefixDelta == DeltaUpTo(edits, prefixCount)
    }

    /** Moves the cursor behind the last edit ending at or before the point:
        back over the edits that end later, or forward over those that do not. */
    method Seek(point: nat) returns (ghost moves: nat)
      requires Coherent()
      modifies this
      ensures Coherent()
      ensures 0 < prefixCount ==> edits[prefixCount - 1].sourceEnd <= point
      ensures prefixCount < |edits| ==> point < edits[prefixCount].sourceEnd
      ensures moves == Distance(old(prefixCount), prefixCount)
    {
      moves := 0;
      while prefixCount != 0 && edits[prefixCount - 1].sourceEnd > point
        invariant Coherent() && moves == old(prefixCount) - prefixCount
        invariant prefixCount < old(prefixCount) ==> edits[prefixCount].sourceEnd > point
      {
        prefixCount := prefixCount - 1;
        prefixDelta := prefixDelta - edits[prefixCount].Delta();
        moves := moves + 1;
      }
      ghost var turn := prefixCount;
      while prefixCount < |edits| && edits[prefixCount].sourceEnd <= point
        invariant Coherent() && turn <= prefixCount
        invariant turn < old(prefixCount) ==> prefixCount == turn
        invariant moves == old(prefixCount) - turn + prefixCount - turn
        invariant 0 < prefixCount ==> edits[prefixCount - 1].sourceEnd <= point
        decreases |edits| - prefixCount
      {
        prefixDelta := prefixDelta + edits[prefixCount].Delta();
        prefixCount := prefixCount + 1;
        moves := moves + 1;
      }
    }

    /** Maps one point; the answer does not depend on the cursor's history.
        `moves` counts the edits the cursor stepped over. */
    method Point(point: nat) returns (mapped: Option<int32>, ghost moves: nat)
      requires Coherent() && Valid(edits, oldLength, newLength)
      modifies this
      ensures Coherent()
      ensures mapped.Some? <==> point <= oldLength && Accepted(edits, point)
      ensures mapped.Some? ==> mapped.value == MapPoint(edits, point) && 0 <= mapped.value <= newLength
      ensures prefixCount == if point <= oldLength then PrefixCount(edits, point) else old(prefixCount)
      ensures moves == Distance(old(prefixCount), prefixCount)
    {
      if point > oldLength {
        return None, 0;
      }
      moves := Seek(point);
      PointAnswer(edits, oldLength, newLength, point, prefixCount);
      if prefixCount < |edits| && edits[prefixCount].sourceStart < point {
        return None, moves;
      }
      var result := point + prefixDelta;
      if result < 0 || result > INT32_MAX || result > newLength {
        return None, moves;
      }
      return Some(result), moves;
    }

    /** Maps a statement pair by its two endpoints, both in old coordinates.  A
        negative location is kept; a zero length stays zero. */
    method Pair(location: int32, length: int32) returns (mapped: Option<(int32, int32)>)
      requires Coherent() && Valid(edits, oldLength, newLength)
      modifies this
      ensures Coherent()
      ensures mapped.Some? <==> PairAccepted(edits, oldLength, location, length)
      ensures mapped.Some? ==>
        && mapped.value.0 == (if location < 0 then location else MapPoint(edits, location))
        && mapped.value.1 == if length == 0 then 0 else MapPoint(edits, location + length) - MapPoint(edits, location)
    {
      hide Coherent, MapPoint, Accepted, Valid, PrefixCount;
      var mappedLocation, mappedLength := location, length;
      if length < 0 {
        return None;
      }
      if location >= 0 {
        var start, _ := Point(location);
        if start.None? {
          return None;
        }
        mappedLocation := start.value;
      }
      if length > 0 {
        if location < 0 || length > oldLength - location {
          return None;
        }
        var end, _ := Point((location as int) + length);
        if end.None? {
          return None;
        }
        EndBehindStart(edits, oldLength, newLength, location, length);
        if end.value < mappedLocation {
          return None;
        }
        mappedLength := end.value - mappedLocation;
      }
      return Some((mappedLocation, mappedLength));
    }
  }

  ghost predicate PointAccepted(edits: seq<Edit>, length: int, point: int) {
    0 <= point <= length && Accepted(edits, point)
  }

  lemma EndBehindStart(edits: seq<Edit>, oldLength: nat, newLength: nat, location: int, length: int)
    requires Valid(edits, oldLength, newLength) && PairAccepted(edits, oldLength, location, length) && length > 0
    ensures 0 <= MapPoint(edits, location) < MapPoint(edits, location + length) <= newLength
  {
    MapStrict(edits, oldLength, location, location + length);
  }

  ghost predicate PairAccepted(edits: seq<Edit>, sourceLength: int, location: int, length: int) {
    && length >= 0
    && (location >= 0 ==> PointAccepted(edits, sourceLength, location))
    && (length > 0 ==> location >= 0 && PointAccepted(edits, sourceLength, location + length))
  }

  /** What the cursor's resting place says about the point. */
  lemma PointAnswer(edits: seq<Edit>, oldLength: nat, newLength: nat, point: nat, k: nat)
    requires Valid(edits, oldLength, newLength) && point <= oldLength && k <= |edits|
    requires 0 < k ==> edits[k - 1].sourceEnd <= point
    requires k < |edits| ==> point < edits[k].sourceEnd
    ensures PrefixCount(edits, point) == k
    ensures Accepted(edits, point) <==> k == |edits| || point <= edits[k].sourceStart
    ensures MapPoint(edits, point) == point + DeltaUpTo(edits, k)
    ensures Accepted(edits, point) ==> 0 <= point + DeltaUpTo(edits, k) <= newLength <= INT32_MAX
  {
    CountReached(edits, oldLength, point, k);
    if Accepted(edits, point) {
      MapInBounds(edits, oldLength, point);
    }
  }

  lemma CountReached(edits: seq<Edit>, length: int, point: nat, k: nat)
    requires WellFormed(edits, length) && point <= length && k <= |edits|
    requires 0 < k ==> edits[k - 1].sourceEnd <= point
    requires k < |edits| ==> point < edits[k].sourceEnd
    ensures PrefixCount(edits, point) == k
    ensures Accepted(edits, point) <==> k == |edits| || point <= edits[k].sourceStart
    ensures MapPoint(edits, point) == point + DeltaUpTo(edits, k)
  {
    var c := PrefixCount(edits, point);
    if c < k {
      EndsOrdered(edits, length, c, k - 1);
    } else if k < c {
      EndsOrdered(edits, length, k, c - 1);
    }
    AcceptedGap(edits, length, point);
  }

  // ----- the cost of a sorted walk

  function Distance(a: int, b: int): nat {
    if a < b then b - a else a - b
  }

  /** The moves a cursor standing at `start` makes over a list of points. */
  function Travel(edits: seq<Edit>, start: nat, points: seq<nat>): nat
    decreases |points|
  {
    if points == [] then 0
    else
      var next := PrefixCount(edits, points[0]);
      Distance(start, next) + Travel(edits, next, points[1..])
  }

  ghost predicate Nondecreasing(points: seq<nat>) {
    forall i, j | 0 <= i < j < |points| :: points[i] <= points[j]
  }

  lemma CountMonotone(edits: seq<Edit>, length: int, p: int, q: int)
    requires WellFormed(edits, length) && p <= q
    ensures PrefixCount(edits, p) <= PrefixCount(edits, q)
  {
    var i, j := PrefixCount(edits, p), PrefixCount(edits, q);
    if j < i {
      EndsOrdered(edits, length, j, i - 1);
    }
  }

  /** Over a nondecreasing walk from a fresh cursor each edit is stepped over at most once. */
  lemma SortedWalkIsLinear(edits: seq<Edit>, length: int, points: seq<nat>)
    requires WellFormed(edits, length) && Nondecreasing(points)
    ensures Travel(edits, 0, points) <= |edits|
  {
    SortedTravel(edits, length, 0, points);
  }

  lemma {:induction false} SortedTravel(edits: seq<Edit>, length: int, start: nat, points: seq<nat>)
    requires WellFormed(edits, length) && Nondecreasing(points) && start <= |edits|
    requires points != [] ==> start <= PrefixCount(edits, points[0])
    ensures Travel(edits, start, points) <= |edits| - start
    ensures points != [] ==> Travel(edits, start, points) == PrefixCount(edits, points[|points| - 1]) - start
    decreases |points|
  {
    if |points| > 1 {
      CountMonotone(edits, length, points[0], points[1]);
      SortedTravel(edits, length, PrefixCount(edits, points[0]), points[1..]);
    }
  }
}

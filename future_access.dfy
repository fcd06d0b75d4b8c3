/** The look-ahead bookkeeping declared for the optimal policy: the sorted
    positions at which an address occurs in the trace, the search for the next
    occurrence after a position, and the state record that would hold them. */
module FutureAccesses {
  import opened Base

  /** FutureAccess: every trace position at which one address appears. */
  datatype FutureAccess = FutureAccess(positions: seq<nat>)

  /** The tracking record of the optimal policy, with its default field values. */
  datatype CacheState = CacheState(
    currentPosition: nat,
    fullTrace: seq<nat>,
    offsetBits: int,
    indexBits: int,
    futureMap: map<nat, FutureAccess>)

  function InitialCacheState(): (s: CacheState)
    ensures s.currentPosition == 0 && s.fullTrace == [] && s.futureMap == map[]
    ensures s.offsetBits == 0 && s.indexBits == 0
  {
    CacheState(0, [], 0, 0, map[])
  }

  /** What std::lower_bound needs: the positions in non-decreasing order, each
      a size_t value. */
  predicate Ascending(ps: seq<nat>)
  {
    (forall i, j | 0 <= i < j < |ps| :: ps[i] <= ps[j]) && (forall i | 0 <= i < |ps| :: ps[i] < U64)
  }

  /** std::lower_bound: the first position whose element is not below target. */
  function LowerBound(ps: seq<nat>, target: nat): (k: nat)
    requires Ascending(ps)
    ensures k <= |ps|
    ensures forall i | 0 <= i < k :: ps[i] < target
    ensures forall i | k <= i < |ps| :: target <= ps[i]
  {
    if ps == [] || target <= ps[0] then 0
    else 1 + LowerBound(ps[1..], target)
  }

  /** getNextAccess(currentPos): the element lower_bound finds for
      currentPos + 1, where the addition wraps at 2^64, or SIZE_MAX when the
      search runs off the end. */
  function NextAccess(f: FutureAccess, currentPos: nat): nat
    requires Ascending(f.positions) && currentPos < U64
  {
    var k := LowerBound(f.positions, (currentPos + 1) % U64);
    if k < |f.positions| then f.positions[k] else SizeMax
  }

  /** Below SIZE_MAX the next access is the least position after currentPos,
      and the sentinel when there is none; any result other than the sentinel
      is one of the positions. When no position is SIZE_MAX itself (positions
      are trace indices), the sentinel means exactly that none is later. */
  lemma NextAccessIsSuccessor(f: FutureAccess, currentPos: nat)
    requires Ascending(f.positions) && currentPos < SizeMax
    ensures var r := NextAccess(f, currentPos);
      var ps := f.positions;
      && ((exists i | 0 <= i < |ps| :: currentPos < ps[i]) ==>
            r in ps && currentPos < r && forall i | 0 <= i < |ps| && currentPos < ps[i] :: r <= ps[i])
      && ((forall i | 0 <= i < |ps| :: ps[i] <= currentPos) ==> r == SizeMax)
      && (r != SizeMax ==> r in ps)
      && ((forall i | 0 <= i < |ps| :: ps[i] < SizeMax) ==>
            (r == SizeMax <==> forall i | 0 <= i < |ps| :: ps[i] <= currentPos))
  {
    assert (currentPos + 1) % U64 == currentPos + 1;
  }

  /** At SIZE_MAX the increment wraps to 0 and the search returns the first
      position: the one case where the result is not after currentPos. */
  lemma NextAccessWraps(f: FutureAccess)
    requires Ascending(f.positions)
    ensures |f.positions| > 0 ==> NextAccess(f, SizeMax) == f.positions[0]
    ensures |f.positions| == 0 ==> NextAccess(f, SizeMax) == SizeMax
  {
    assert (SizeMax + 1) % U64 == 0;
  }

  /** Up to SIZE_MAX - 1 the next access never decreases as the position grows. */
  lemma NextAccessMonotonic(f: FutureAccess, p: nat, q: nat)
    requires Ascending(f.positions) && p <= q < SizeMax
    ensures NextAccess(f, p) <= NextAccess(f, q)
  {
    var ps := f.positions;
    var kp := LowerBound(ps, p + 1);
    var kq := LowerBound(ps, q + 1);
    assert (p + 1) % U64 == p + 1 && (q + 1) % U64 == q + 1;
    assert kq < |ps| ==> p + 1 <= ps[kq];
    assert kp <= kq;
    if kq < |ps| {
      assert ps[kp] <= ps[kq];
    }
  }

  /** The binary search std::lower_bound performs. */
  method LowerBoundSearch(ps: seq<nat>, target: nat) returns (k: nat)
    requires Ascending(ps)
    ensures k == LowerBound(ps, target)
  {
    var lo, hi := 0, |ps|;
    while lo < hi
      invariant 0 <= lo <= hi <= |ps|
      invariant forall i | 0 <= i < lo :: ps[i] < target
      invariant forall i | hi <= i < |ps| :: target <= ps[i]
      decreases hi - lo
    {
      var mid := lo + (hi - lo) / 2;
      if ps[mid] < target {
        lo := mid + 1;
      } else {
        hi := mid;
      }
    }
    k := lo;
    LowerBoundUnique(ps, target, k);
  }

  /** The split point lower_bound returns is the only one. */
  lemma LowerBoundUnique(ps: seq<nat>, target: nat, k: nat)
    requires Ascending(ps) && k <= |ps|
    requires forall i | 0 <= i < k :: ps[i] < target
    requires forall i | k <= i < |ps| :: target <= ps[i]
    ensures k == LowerBound(ps, target)
  {
    var m := LowerBound(ps, target);
    assert k < |ps| ==> target <= ps[k];
    assert m < |ps| ==> target <= ps[m];
  }

  /** getNextAccess as the source computes it, through the search. */
  method GetNextAccess(f: FutureAccess, currentPos: nat) returns (r: nat)
    requires Ascending(f.positions) && currentPos < U64
    ensures r == NextAccess(f, currentPos)
  {
    var k := LowerBoundSearch(f.positions, (currentPos + 1) % U64);
    if k < |f.positions| {
      r := f.positions[k];
    } else {
      r := SizeMax;
    }
  }
}

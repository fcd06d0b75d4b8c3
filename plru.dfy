/** The pseudo-LRU bit tree of one set, stored as a flat heap: the root is
    node 0 and the children of node k are 2k+1 (left) and 2k+2 (right). Only the
    2^depth - 1 nodes above the leaves are represented; the leaf nodes the
    source allocates carry bits that nothing reads or writes. */
module Plru {
  import opened Base

  /** ceil(log2(ways)), the depth of the tree and the length of every walk. */
  function Depth(ways: nat): nat
    requires ways >= 1
  {
    CeilLog2(ways)
  }

  function TreeSize(ways: nat): nat
    requires ways >= 1
  {
    Pow2(Depth(ways)) - 1
  }

  /** The freshly built tree: every bit false. */
  function InitialTree(ways: nat): (t: seq<bool>)
    requires ways >= 1
    ensures |t| == TreeSize(ways)
    ensures forall k | 0 <= k < |t| :: !t[k]
  {
    seq(TreeSize(ways), _ => false)
  }

  function BitValue(b: bool): nat
  {
    if b then 1 else 0
  }

  // ---------------------------------------------------------------------------
  // The victim walk
  // ---------------------------------------------------------------------------

  /** The way index the first j steps of the victim walk build: from the root,
      go right (append a 1) on a true bit, left (append a 0) on a false bit.
      After j steps the walk stands on node 2^j - 1 + WalkPrefix(bits, j). */
  function WalkPrefix(bits: seq<bool>, j: nat): (p: nat)
    requires Pow2(j) - 1 <= |bits|
    ensures p < Pow2(j)
  {
    if j == 0 then 0
    else
      var q := WalkPrefix(bits, j - 1);
      2 * q + BitValue(bits[Pow2(j - 1) - 1 + q])
  }

  /** findPLRUVictim: the walk to full depth, reduced modulo the number of ways. */
  function Victim(bits: seq<bool>, ways: nat): (v: nat)
    requires ways >= 1 && |bits| == TreeSize(ways)
    ensures v < ways
  {
    WalkPrefix(bits, Depth(ways)) % ways
  }

  /** The first j steps of a longer walk are its top bits. */
  lemma {:induction false} WalkPrefixTop(bits: seq<bool>, j: nat, k: nat)
    requires j <= k && Pow2(k) - 1 <= |bits|
    ensures Pow2(j) - 1 <= |bits|
    ensures Shr(WalkPrefix(bits, k), k - j) == WalkPrefix(bits, j)
    decreases k
  {
    Pow2Monotonic(j, k);
    if j < k {
      assert Pow2(k) == 2 * Pow2(k - 1);
      WalkPrefixTop(bits, j, k - 1);
      var q := WalkPrefix(bits, k - 1);
      assert WalkPrefix(bits, k) / 2 == q;
    }
  }

  /** On the freshly built tree every walk goes left to way 0. */
  lemma {:induction false} InitialWalkIsZero(ways: nat, j: nat)
    requires ways >= 1 && Pow2(j) - 1 <= TreeSize(ways)
    ensures WalkPrefix(InitialTree(ways), j) == 0
  {
    if j > 0 {
      assert Pow2(j) == 2 * Pow2(j - 1);
      InitialWalkIsZero(ways, j - 1);
    }
  }

  /** The first victim of a full set that has had no hit is way 0. */
  lemma InitialVictimIsZero(ways: nat)
    requires ways >= 1
    ensures Victim(InitialTree(ways), ways) == 0
  {
    InitialWalkIsZero(ways, Depth(ways));
  }

  // ---------------------------------------------------------------------------
  // The update on a hit
  // ---------------------------------------------------------------------------

  /** Bit depth-1-j of w: the direction (1 = right) at level j of w's path. */
  function Dir(w: nat, d: nat, j: nat): nat
    requires j < d
  {
    Shr(w, d - 1 - j) % 2
  }

  /** The node at level j of the path from the root to way w. */
  function PathNode(w: nat, d: nat, j: nat): nat
    requires j <= d
  {
    Pow2(j) - 1 + Shr(w, d - j)
  }

  /** Level j of a path lies in the j-th row of the heap. */
  lemma PathNodeRow(w: nat, d: nat, j: nat)
    requires w < Pow2(d) && j < d
    ensures Pow2(j) - 1 <= PathNode(w, d, j) < Pow2(j + 1) - 1
    ensures PathNode(w, d, j) < Pow2(d) - 1
  {
    ShrBound(w, d - j, j);
    Pow2Monotonic(j + 1, d);
  }

  /** Going down one level: the child on the side of w's next bit. */
  lemma PathStep(w: nat, d: nat, j: nat)
    requires j < d
    ensures PathNode(w, d, j + 1) == 2 * PathNode(w, d, j) + 1 + Dir(w, d, j)
  {
    ShrShr(w, d - 1 - j, 1);
    assert Shr(Shr(w, d - 1 - j), 1) == Shr(w, d - 1 - j) / 2;
  }

  /** updatePLRUBits for levels 0 .. j-1 of w's path: each node's bit becomes
      the negation of the direction w takes there. */
  function TouchLevels(bits: seq<bool>, w: nat, d: nat, j: nat): (r: seq<bool>)
    requires w < Pow2(d) && j <= d && |bits| == Pow2(d) - 1
    ensures |r| == |bits|
  {
    if j == 0 then bits
    else
      PathNodeRow(w, d, j - 1);
      TouchLevels(bits, w, d, j - 1)[PathNode(w, d, j - 1) := Dir(w, d, j - 1) == 0]
  }

  /** updatePLRUBits(w) on the whole path. */
  function Touch(bits: seq<bool>, w: nat, ways: nat): (r: seq<bool>)
    requires ways >= 1 && w < ways && |bits| == TreeSize(ways)
    ensures |r| == |bits|
  {
    TouchLevels(bits, w, Depth(ways), Depth(ways))
  }

  lemma {:induction false} TouchLevelsEffect(bits: seq<bool>, w: nat, d: nat, m: nat, k: nat)
    requires w < Pow2(d) && m <= d && |bits| == Pow2(d) - 1 && k < |bits|
    ensures (exists j | 0 <= j < m :: k == PathNode(w, d, j)) ==>
      forall j | 0 <= j < m && k == PathNode(w, d, j) :: TouchLevels(bits, w, d, m)[k] == (Dir(w, d, j) == 0)
    ensures (forall j | 0 <= j < m :: k != PathNode(w, d, j)) ==> TouchLevels(bits, w, d, m)[k] == bits[k]
  {
    if m > 0 {
      TouchLevelsEffect(bits, w, d, m - 1, k);
      PathNodeRow(w, d, m - 1);
      forall j | 0 <= j < m - 1
        ensures PathNode(w, d, j) != PathNode(w, d, m - 1)
      {
        PathNodeRow(w, d, j);
        Pow2Monotonic(j + 1, m - 1);
      }
    }
  }

  /** After a hit on way w every node of w's path points away from w (its bit is
      the negation of w's bit at that level, most significant bit at the root),
      and every other node keeps its bit. */
  lemma TouchEffect(bits: seq<bool>, w: nat, ways: nat)
    requires ways >= 1 && w < ways && |bits| == TreeSize(ways)
    ensures forall j | 0 <= j < Depth(ways) ::
      PathNode(w, Depth(ways), j) < |bits| &&
      Touch(bits, w, ways)[PathNode(w, Depth(ways), j)] == (Dir(w, Depth(ways), j) == 0)
    ensures forall k | 0 <= k < |bits| :: (forall j | 0 <= j < Depth(ways) :: k != PathNode(w, Depth(ways), j)) ==>
      Touch(bits, w, ways)[k] == bits[k]
  {
    var d := Depth(ways);
    forall j | 0 <= j < d
      ensures PathNode(w, d, j) < |bits| && Touch(bits, w, ways)[PathNode(w, d, j)] == (Dir(w, d, j) == 0)
    {
      PathNodeRow(w, d, j);
      TouchLevelsEffect(bits, w, d, d, PathNode(w, d, j));
    }
    forall k | 0 <= k < |bits| && (forall j | 0 <= j < d :: k != PathNode(w, d, j))
      ensures Touch(bits, w, ways)[k] == bits[k]
    {
      TouchLevelsEffect(bits, w, d, d, k);
    }
  }

  /** With a power-of-two number of ways (at least two), the victim right after
      a hit on way w is never w: the root now points to the other half. */
  lemma VictimAvoidsTouched(bits: seq<bool>, w: nat, ways: nat)
    requires ways >= 2 && ways == Pow2(Depth(ways))
    requires w < ways && |bits| == TreeSize(ways)
    ensures Victim(Touch(bits, w, ways), ways) != w
  {
    var d := Depth(ways);
    var t := Touch(bits, w, ways);
    assert d > 0;
    var top := Shr(w, d - 1);
    assert top < 2 by {
      ShrBound(w, d - 1, 1);
    }
    assert t[0] == (top == 0) by {
      ShrOfSmall(w, d);
      assert PathNode(w, d, 0) == 0;
      TouchEffect(bits, w, ways);
    }
    var v := WalkPrefix(t, d);
    assert Shr(v, d - 1) == BitValue(t[0]) by {
      Pow2Monotonic(1, d);
      WalkPrefixTop(t, 1, d);
      assert WalkPrefix(t, 1) == 2 * WalkPrefix(t, 0) + BitValue(t[Pow2(0) - 1 + WalkPrefix(t, 0)]);
    }
    assert v != w;
    SmallMod(v, ways);
  }

  lemma SmallMod(v: nat, m: nat)
    requires v < m
    ensures v % m == v
  {
  }
}

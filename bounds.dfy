/** The `inner_loop_bounds` table: for every mask i, the first candidate
    whose leading letter lies above the leading letter of i. Since the
    candidates are sorted, the candidates from there on are exactly those the
    dynamic program may append to i. */
module Bounds {
  import opened Masks
  import opened Cover

  /** b splits B into the words whose leading letter is at most that of i
      and the words whose leading letter is above it. */
  ghost predicate IsBound(B: seq<nat>, i: nat, b: int)
  {
    0 <= b <= |B| &&
    (forall j :: 0 <= j < b ==> Msb(B[j]) <= Msb(i)) &&
    (forall j :: b <= j < |B| ==> Msb(B[j]) > Msb(i))
  }

  /** The sweep of the source: one index j moves forward over the sorted
      candidates while i runs over all masks. Entry 0 keeps its initial 0
      (every candidate lies above the empty mask). The table has one entry
      per mask below size (TableSize in the program). */
  method InnerLoopBounds(B: seq<nat>, size: nat) returns (bounds: array<int>)
    requires ValidMasks(B) && size > 0
    ensures fresh(bounds) && bounds.Length == size
    ensures forall i :: 0 <= i < size ==> IsBound(B, i, bounds[i])
  {
    bounds := new int[size](_ => 0);
    BoundOfZero(B);
    var j := 0;
    for i := 1 to size
      invariant 0 <= j <= |B|
      invariant j == 0 || Msb(B[j - 1]) <= Msb(i - 1)
      invariant forall k :: 0 <= k < i ==> IsBound(B, k, bounds[k])
    {
      var top := Msb(i);
      MsbMonotone(i - 1, i);
      while j < |B| && Msb(B[j]) <= top
        invariant 0 <= j <= |B|
        invariant j == 0 || Msb(B[j - 1]) <= top
      {
        j := j + 1;
      }
      SweepStop(B, i, j);
      bounds[i] := j;
    }
  }

  /** Where the sweep stops for i is the bound of i: the masks are
      ascending, so their leading letters are too. */
  lemma SweepStop(B: seq<nat>, i: nat, j: nat)
    requires ValidMasks(B) && j <= |B|
    requires j == 0 || Msb(B[j - 1]) <= Msb(i)
    requires j < |B| ==> Msb(B[j]) > Msb(i)
    ensures IsBound(B, i, j)
  {
    forall t | 0 <= t < j
      ensures Msb(B[t]) <= Msb(i)
    {
      MsbMonotone(B[t], B[j - 1]);
    }
    forall t | j <= t < |B|
      ensures Msb(B[t]) > Msb(i)
    {
      MsbMonotone(B[j], B[t]);
    }
  }

  /** Every candidate lies above the empty mask. */
  lemma BoundOfZero(B: seq<nat>)
    requires ValidMasks(B)
    ensures IsBound(B, 0, 0)
  {
    forall t | 0 <= t < |B|
      ensures Msb(B[t]) > Msb(0)
    {
      MsbRange(B[t]);
    }
  }

  /** The table is non-decreasing in i. */
  lemma BoundsMonotone(B: seq<nat>, i1: nat, i2: nat, b1: int, b2: int)
    requires ValidMasks(B)
    requires i1 <= i2 && IsBound(B, i1, b1) && IsBound(B, i2, b2)
    ensures b1 <= b2
  {
    MsbMonotone(i1, i2);
    if b1 > 0 {
      // the last word below bound b1 is not above Msb(i2) either
      assert Msb(B[b1 - 1]) <= Msb(i2);
    }
  }
}

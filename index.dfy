/** The dynamic program over all masks and the solution index built beside
    it: `has_solution`, the `results` log of (new_mask, j, prev) records and
    the `result_ptrs` head table, one singly linked list per mask. */
module SolutionIndex {
  import opened Masks
  import opened Cover
  import opened Bounds

  /** One entry of the `results` log. */
  datatype Record = Record(target: nat, word: nat, prev: int)

  /** p is the last record before position n whose target is m, or -1 when
      there is none. */
  ghost predicate LastWith(R: seq<Record>, n: nat, m: nat, p: int)
    requires n <= |R|
  {
    (p == -1 || (0 <= p < n && R[p].target == m)) &&
    forall r :: p < r < n ==> R[r].target != m
  }

  /** The head table points at the newest record of each mask and every
      record links to the previous one of its mask: following `prev` from
      `result_ptrs[m]` visits exactly the records of m, newest first. */
  ghost predicate Linked(R: seq<Record>, ptrs: seq<int>)
  {
    (forall m :: 0 <= m < |ptrs| ==> LastWith(R, |R|, m, ptrs[m])) &&
    (forall r :: 0 <= r < |R| ==> R[r].target < |ptrs| && LastWith(R, r, R[r].target, R[r].prev))
  }

  /** Every record names a top word of its mask whose removal leaves a
      reachable mask. */
  ghost predicate Sound(B: seq<nat>, R: seq<Record>)
  {
    forall r :: 0 <= r < |R| ==>
      TopWord(B, R[r].target, R[r].word) && Reachable(B, AndNot(R[r].target, B[R[r].word]))
  }

  /** Every such (mask, top word) pair below `size` has a record. */
  ghost predicate Complete(B: seq<nat>, R: seq<Record>, size: nat)
  {
    forall m: nat, j: nat :: m < size && TopWord(B, m, j) && Reachable(B, AndNot(m, B[j])) ==>
      exists r :: 0 <= r < |R| && R[r].target == m && R[r].word == j
  }

  /** No word is recorded twice for the same mask. */
  ghost predicate NoRepeat(R: seq<Record>)
  {
    forall r1, r2 :: 0 <= r1 < r2 < |R| && R[r1].target == R[r2].target ==> R[r1].word != R[r2].word
  }

  /** The finished index: what the search relies on. */
  ghost predicate IndexValid(B: seq<nat>, R: seq<Record>, ptrs: seq<int>)
  {
    Linked(R, ptrs) && Sound(B, R) && Complete(B, R, |ptrs|) && NoRepeat(R)
  }

  // ---------------------------------------------------------------------
  // The loop invariant of the dynamic program.

  /** Word j may extend mask s: no shared letter, and its leading letter is
      above that of s (the `j >= inner_loop_bounds[s]` window). */
  ghost predicate Step(B: seq<nat>, s: nat, j: nat)
  {
    j < |B| && Disjoint(s, B[j]) && Msb(B[j]) > Msb(s)
  }

  /** The pair (s, w) has been visited when the loops stand at (i, j):
      masks ascend, words descend within a mask. */
  predicate Before(s: nat, w: nat, i: nat, j: int)
  {
    s < i || (s == i && w > j)
  }

  /** Record r extends the reachable mask src[r] by its word. */
  ghost predicate RecordsSound(B: seq<nat>, R: seq<Record>, src: seq<nat>)
  {
    |src| == |R| &&
    forall r :: 0 <= r < |R| ==>
      Step(B, src[r], R[r].word) && R[r].target == Or(src[r], B[R[r].word]) &&
      Reachable(B, src[r])
  }

  /** Every visited extension of a reachable mask has its record. */
  ghost predicate CompleteBefore(B: seq<nat>, R: seq<Record>, src: seq<nat>, i: nat, j: int)
    requires |src| == |R|
  {
    forall s: nat, w: nat :: Step(B, s, w) && Reachable(B, s) && Before(s, w, i, j) ==>
      exists r :: 0 <= r < |R| && src[r] == s && R[r].word == w
  }

  ghost predicate LogInv(B: seq<nat>, R: seq<Record>, src: seq<nat>, ptrs: seq<int>, i: nat, j: int)
  {
    RecordsSound(B, R, src) &&
    Linked(R, ptrs) &&
    NoRepeat(R) &&
    (forall r :: 0 <= r < |R| ==> Before(src[r], R[r].word, i, j)) &&
    CompleteBefore(B, R, src, i, j)
  }

  /** Entry i of the table is the bound of mask i. */
  ghost predicate BoundTable(B: seq<nat>, bounds: seq<int>)
  {
    forall i :: 0 <= i < |bounds| ==> IsBound(B, i, bounds[i])
  }

  /** The source's loops. Masks are visited in ascending order; a reachable
      mask i is extended by every disjoint word from its bound on, each
      extension marking the new mask and prepending a record to its list. */
  method BuildIndex(B: seq<nat>, bounds: array<int>)
    returns (hasSolution: array<bool>, results: seq<Record>, resultPtrs: array<int>)
    requires ValidMasks(B)
    requires bounds.Length == TableSize && BoundTable(B, bounds[..])
    ensures fresh(hasSolution) && fresh(resultPtrs)
    ensures hasSolution.Length == TableSize && resultPtrs.Length == TableSize
    ensures forall m :: 0 <= m < TableSize ==> (hasSolution[m] <==> Reachable(B, m))
    ensures IndexValid(B, results, resultPtrs[..])
  {
    hasSolution := new bool[TableSize](m => m == 0);
    resultPtrs := new int[TableSize](_ => -1);
    results := [];
    ghost var src: seq<nat> := [];
    for i := 0 to TableSize
      invariant LogInv(B, results, src, resultPtrs[..], i, |B| - 1)
      invariant TableMatches(hasSolution[..], results)
    {
      assert bounds[..][i] == bounds[i];
      results, src := VisitMask(B, i, bounds[i], hasSolution, results, resultPtrs, src);
    }
    Finish(B, results, src, resultPtrs[..]);
  }

  /** One step of the outer loop: mask i is extended when it is reachable,
      which, all smaller masks being done, its table entry already says. */
  method VisitMask(B: seq<nat>, i: nat, bound: int, hasSolution: array<bool>,
                   results: seq<Record>, resultPtrs: array<int>, ghost src: seq<nat>)
    returns (results': seq<Record>, ghost src': seq<nat>)
    requires ValidMasks(B) && i < TableSize && IsBound(B, i, bound)
    requires hasSolution.Length == TableSize && resultPtrs.Length == TableSize
    requires LogInv(B, results, src, resultPtrs[..], i, |B| - 1)
    requires TableMatches(hasSolution[..], results)
    modifies hasSolution, resultPtrs
    ensures LogInv(B, results', src', resultPtrs[..], i + 1, |B| - 1)
    ensures TableMatches(hasSolution[..], results')
    ensures results <= results'
  {
    TableEntry(B, results, src, i);
    assert hasSolution[..][i] == hasSolution[i];
    if !hasSolution[i] {
      SkipSource(B, results, src, resultPtrs[..], i);
      results', src' := results, src;
    } else {
      results', src' := ExtendMask(B, i, bound, hasSolution, results, resultPtrs, src);
    }
  }

  /** The inner loop for one reachable mask i: every word at or above the
      bound, taken from the last one down, that shares no letter with i marks
      `i | word` in the table and prepends a record to that mask's list. */
  method ExtendMask(B: seq<nat>, i: nat, bound: int, hasSolution: array<bool>,
                    results: seq<Record>, resultPtrs: array<int>, ghost src: seq<nat>)
    returns (results': seq<Record>, ghost src': seq<nat>)
    requires ValidMasks(B) && i < TableSize && IsBound(B, i, bound) && Reachable(B, i)
    requires hasSolution.Length == TableSize && resultPtrs.Length == TableSize
    requires LogInv(B, results, src, resultPtrs[..], i, |B| - 1)
    requires TableMatches(hasSolution[..], results)
    modifies hasSolution, resultPtrs
    ensures LogInv(B, results', src', resultPtrs[..], i + 1, |B| - 1)
    ensures TableMatches(hasSolution[..], results')
    ensures results <= results'
  {
    results', src' := results, src;
    var j := |B| - 1;
    while j >= bound
      invariant bound - 1 <= j <= |B| - 1
      invariant LogInv(B, results', src', resultPtrs[..], i, j)
      invariant TableMatches(hasSolution[..], results')
      invariant results <= results'
    {
      AndZeroIffDisjoint(B[j], i);
      if And(B[j], i) == 0 {
        var newMask := Or(i, B[j]);
        TableSizeIsPow2();
        OrBelow(i, B[j], Letters);
        ghost var ptrs0, has0 := resultPtrs[..], hasSolution[..];
        AppendStep(B, results', src', ptrs0, i, j);
        TableAppend(has0, results', Record(newMask, j, resultPtrs[newMask]));
        hasSolution[newMask] := true;
        var r := |results'|;
        results' := results' + [Record(newMask, j, resultPtrs[newMask])];
        src' := src' + [i];
        resultPtrs[newMask] := r;
        assert resultPtrs[..] == ptrs0[newMask := r];
        assert hasSolution[..] == has0[newMask := true];
      } else {
        SkipWord(B, results', src', resultPtrs[..], i, j);
      }
      j := j - 1;
    }
    FinishSource(B, results', src', resultPtrs[..], i, bound);
  }

  // ---------------------------------------------------------------------
  // Preservation of the invariant, one step at a time.

  /** `has_solution[m]` is set exactly for 0 and the masks with a record. */
  ghost predicate TableMatches(has: seq<bool>, R: seq<Record>)
  {
    forall m :: 0 <= m < |has| ==>
      (has[m] <==> m == 0 || exists r :: 0 <= r < |R| && R[r].target == m)
  }

  lemma TableAppend(has: seq<bool>, R: seq<Record>, rec: Record)
    requires TableMatches(has, R) && rec.target < |has|
    ensures TableMatches(has[rec.target := true], R + [rec])
  {
    var R', has' := R + [rec], has[rec.target := true];
    forall m | 0 <= m < |has|
      ensures (has'[m] <==> m == 0 || exists r :: 0 <= r < |R'| && R'[r].target == m)
    {
      if m == rec.target {
        assert R'[|R|].target == m;
      } else if r :| 0 <= r < |R| && R[r].target == m {
        assert R'[r].target == m;
      }
    }
  }

  /** Once all smaller masks are done, the table entry of i is final. */
  lemma TableEntry(B: seq<nat>, R: seq<Record>, src: seq<nat>, i: nat)
    requires RecordsSound(B, R, src) && CompleteBefore(B, R, src, i, |B| - 1)
    ensures Reachable(B, i) <==> i == 0 || exists r :: 0 <= r < |R| && R[r].target == i
  {
    if i == 0 {
      EmptyCoverReachable(B);
    } else {
      if r :| 0 <= r < |R| && R[r].target == i {
        Extension(B, src[r], R[r].word);
        ReachableStep(B, i);
      }
      if Reachable(B, i) {
        ReachableStep(B, i);
        var j: nat :| TopWord(B, i, j) && Reachable(B, AndNot(i, B[j]));
        Remainder(B, i, j);
        var rest := AndNot(i, B[j]);
        assert Step(B, rest, j) && Before(rest, j, i, |B| - 1);
        var r :| 0 <= r < |R| && src[r] == rest && R[r].word == j;
        assert R[r].target == i;
      }
    }
  }

  lemma SkipSource(B: seq<nat>, R: seq<Record>, src: seq<nat>, ptrs: seq<int>, i: nat)
    requires LogInv(B, R, src, ptrs, i, |B| - 1) && !Reachable(B, i)
    ensures LogInv(B, R, src, ptrs, i + 1, |B| - 1)
  {
    forall s: nat, w: nat | Step(B, s, w) && Reachable(B, s) && Before(s, w, i + 1, |B| - 1)
      ensures exists r :: 0 <= r < |R| && src[r] == s && R[r].word == w
    {
      assert Before(s, w, i, |B| - 1);
    }
  }

  lemma SkipWord(B: seq<nat>, R: seq<Record>, src: seq<nat>, ptrs: seq<int>, i: nat, j: int)
    requires 0 <= j < |B|
    requires LogInv(B, R, src, ptrs, i, j) && !Disjoint(B[j], i)
    ensures LogInv(B, R, src, ptrs, i, j - 1)
  {
    forall s: nat, w: nat | Step(B, s, w) && Reachable(B, s) && Before(s, w, i, j - 1)
      ensures exists r :: 0 <= r < |R| && src[r] == s && R[r].word == w
    {
      if s != i || w != j {
        assert Before(s, w, i, j);
      }
    }
  }

  lemma AppendStep(B: seq<nat>, R: seq<Record>, src: seq<nat>, ptrs: seq<int>, i: nat, j: int)
    requires 0 <= j < |B|
    requires LogInv(B, R, src, ptrs, i, j) && Disjoint(B[j], i) && Reachable(B, i)
    requires Msb(B[j]) > Msb(i)
    requires Or(i, B[j]) < |ptrs|
    ensures var m := Or(i, B[j]);
      LogInv(B, R + [Record(m, j, ptrs[m])], src + [i], ptrs[m := |R|], i, j - 1)
  {
    var m := Or(i, B[j]);
    var rec := Record(m, j, ptrs[m]);
    assert Step(B, i, j);
    AppendLinked(R, ptrs, rec);
    AppendNoRepeat(B, R, src, i, j);
    AppendComplete(B, R, src, i, j, rec);
  }

  /** Prepending a record to the list of its mask keeps the lists linked. */
  lemma AppendLinked(R: seq<Record>, ptrs: seq<int>, rec: Record)
    requires Linked(R, ptrs) && rec.target < |ptrs| && rec.prev == ptrs[rec.target]
    ensures Linked(R + [rec], ptrs[rec.target := |R|])
  {
    var m := rec.target;
    var R', ptrs' := R + [rec], ptrs[m := |R|];
    forall m' | 0 <= m' < |ptrs'|
      ensures LastWith(R', |R'|, m', ptrs'[m'])
    {
      assert LastWith(R, |R|, m', ptrs[m']);
    }
    forall r | 0 <= r < |R'|
      ensures R'[r].target < |ptrs'| && LastWith(R', r, R'[r].target, R'[r].prev)
    {
      if r < |R| {
        assert LastWith(R, r, R[r].target, R[r].prev);
      } else {
        assert LastWith(R, |R|, m, ptrs[m]);
      }
    }
  }

  /** An earlier record for `i | B[j]` with word j would have come from i
      itself, which is visited once per word. */
  lemma AppendNoRepeat(B: seq<nat>, R: seq<Record>, src: seq<nat>, i: nat, j: int)
    requires 0 <= j < |B| && Step(B, i, j)
    requires RecordsSound(B, R, src) && NoRepeat(R)
    requires forall r :: 0 <= r < |R| ==> Before(src[r], R[r].word, i, j)
    ensures forall p :: NoRepeat(R + [Record(Or(i, B[j]), j, p)])
  {
    var m := Or(i, B[j]);
    Extension(B, i, j);
    forall p, r1, r2 | 0 <= r1 < r2 < |R| + 1 && (R + [Record(m, j, p)])[r1].target == (R + [Record(m, j, p)])[r2].target
      ensures (R + [Record(m, j, p)])[r1].word != (R + [Record(m, j, p)])[r2].word
    {
      if r2 == |R| && R[r1].word == j {
        Extension(B, src[r1], j);
      }
    }
  }

  /** The visited pair (i, j) now has its record. */
  lemma AppendComplete(B: seq<nat>, R: seq<Record>, src: seq<nat>, i: nat, j: int, rec: Record)
    requires 0 <= j < |B| && Step(B, i, j) && Reachable(B, i)
    requires rec.target == Or(i, B[j]) && rec.word == j
    requires RecordsSound(B, R, src)
    requires forall r :: 0 <= r < |R| ==> Before(src[r], R[r].word, i, j)
    requires CompleteBefore(B, R, src, i, j)
    ensures RecordsSound(B, R + [rec], src + [i])
    ensures forall r :: 0 <= r < |R| + 1 ==> Before((src + [i])[r], (R + [rec])[r].word, i, j - 1)
    ensures CompleteBefore(B, R + [rec], src + [i], i, j - 1)
  {
    var R', src' := R + [rec], src + [i];
    forall s: nat, w: nat | Step(B, s, w) && Reachable(B, s) && Before(s, w, i, j - 1)
      ensures exists r :: 0 <= r < |R'| && src'[r] == s && R'[r].word == w
    {
      if s == i && w == j {
        assert src'[|R|] == s && R'[|R|].word == w;
      } else {
        assert Before(s, w, i, j);
        var r :| 0 <= r < |R| && src[r] == s && R[r].word == w;
        assert src'[r] == s && R'[r].word == w;
      }
    }
  }

  lemma FinishSource(B: seq<nat>, R: seq<Record>, src: seq<nat>, ptrs: seq<int>, i: nat, bound: int)
    requires IsBound(B, i, bound)
    requires LogInv(B, R, src, ptrs, i, bound - 1)
    ensures LogInv(B, R, src, ptrs, i + 1, |B| - 1)
  {
    forall s: nat, w: nat | Step(B, s, w) && Reachable(B, s) && Before(s, w, i + 1, |B| - 1)
      ensures exists r :: 0 <= r < |R| && src[r] == s && R[r].word == w
    {
      assert Before(s, w, i, bound - 1);
    }
  }

  /** After the last mask: the table is exactly reachability and the index
      is valid. */
  lemma Finish(B: seq<nat>, R: seq<Record>, src: seq<nat>, ptrs: seq<int>)
    requires |ptrs| == TableSize
    requires LogInv(B, R, src, ptrs, TableSize, |B| - 1)
    ensures forall m :: 0 <= m < TableSize ==>
      (Reachable(B, m) <==> m == 0 || exists r :: 0 <= r < |R| && R[r].target == m)
    ensures IndexValid(B, R, ptrs)
  {
    forall m | 0 <= m < TableSize
      ensures Reachable(B, m) <==> m == 0 || exists r :: 0 <= r < |R| && R[r].target == m
    {
      FinishEntry(B, R, src, ptrs, m);
    }
    forall r | 0 <= r < |R|
      ensures TopWord(B, R[r].target, R[r].word) && Reachable(B, AndNot(R[r].target, B[R[r].word]))
    {
      Extension(B, src[r], R[r].word);
    }
    forall m: nat, j: nat | m < TableSize && TopWord(B, m, j) && Reachable(B, AndNot(m, B[j]))
      ensures exists r :: 0 <= r < |R| && R[r].target == m && R[r].word == j
    {
      Remainder(B, m, j);
      var rest := AndNot(m, B[j]);
      assert Step(B, rest, j) && Before(rest, j, TableSize, |B| - 1);
      var r :| 0 <= r < |R| && src[r] == rest && R[r].word == j;
      assert R[r].target == m;
    }
  }

  lemma FinishEntry(B: seq<nat>, R: seq<Record>, src: seq<nat>, ptrs: seq<int>, m: nat)
    requires m < TableSize
    requires LogInv(B, R, src, ptrs, TableSize, |B| - 1)
    ensures Reachable(B, m) <==> m == 0 || exists r :: 0 <= r < |R| && R[r].target == m
  {
    // every pair visited before m was visited before the end
    forall s: nat, w: nat | Step(B, s, w) && Reachable(B, s) && Before(s, w, m, |B| - 1)
      ensures exists r :: 0 <= r < |R| && src[r] == s && R[r].word == w
    {
      assert Before(s, w, TableSize, |B| - 1);
    }
    TableEntry(B, R, src, m);
  }
}

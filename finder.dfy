/** The program as a whole: read the word list, build the bound table and
    the reachability index, then search every 26-letter mask with one letter
    left out. The lines the program prints are returned. */
module Finder {
  import opened Masks
  import opened Cover
  import opened Ingest
  import opened Bounds
  import opened SolutionIndex
  import opened Enumeration

  /** The lowest n bits but bit skip; the driver's
      `((1u << 26) - 1) & ~(1u << skip)` (see AllButAndNot). */
  function AllBut(n: nat, skip: nat): (m: nat)
    requires skip < n
  {
    Pow2Monotone(skip + 1, n);
    LowMask(n) - Pow2(skip)
  }

  /** Clearing a bit that is set subtracts it. */
  lemma AllButAndNot(n: nat, skip: nat)
    requires skip < n
    ensures AllBut(n, skip) == AndNot(LowMask(n), Pow2(skip))
  {
    HasLowMask(n, skip);
    HasSplit(LowMask(n), skip);
  }

  /** The mask for a skipped letter holds the other letters. */
  lemma AllButBits(n: nat, skip: nat)
    requires skip < n
    ensures forall k: nat :: k in Bits(AllBut(n, skip)) <==> k < n && k != skip
  {
    AllButAndNot(n, skip);
    BitsAndNot(LowMask(n), Pow2(skip));
    BitsPow2(skip);
    BitsLowMask(n);
  }

  /** n - 1 letters, below bit n. */
  lemma AllButSize(n: nat, skip: nat)
    requires skip < n
    ensures PopCount(AllBut(n, skip)) == n - 1
    ensures AllBut(n, skip) < Pow2(n)
  {
    AllButAndNot(n, skip);
    BitsAndNot(LowMask(n), Pow2(skip));
    BitsPow2(skip);
    BitsLowMask(n);
    PopCountLowMask(n);
    assert Bits(AllBut(n, skip)) == Bits(LowMask(n)) - {skip};
    BelowPow2(AllBut(n, skip), n);
    MsbIsMax(AllBut(n, skip));
  }

  /** Different skipped letters give different masks. */
  lemma AllButInjective(n: nat, a: nat, b: nat)
    requires a < n && b < n && AllBut(n, a) == AllBut(n, b)
    ensures a == b
  {
    AllButBits(n, a);
    AllButBits(n, b);
    assert b in Bits(AllBut(n, a)) <==> b != a;
    assert b !in Bits(AllBut(n, b));
  }

  /** Every mask of the list has an entry in the index. */
  ghost predicate InTable(t: Tables, masks: seq<nat>)
  {
    forall i :: 0 <= i < |masks| ==> masks[i] < |t.ptrs|
  }

  /** No mask is searched twice. */
  ghost predicate Distinct(masks: seq<nat>)
  {
    forall i, j :: 0 <= i < j < |masks| ==> masks[i] != masks[j]
  }

  /** The lines of one search per mask of the list, in that order, all
      printed to the same output. */
  ghost function Printed(t: Tables, masks: seq<nat>): seq<seq<Pick>>
    requires WellFormed(t) && InTable(t, masks)
  {
    if masks == [] then []
    else Printed(t, masks[..|masks| - 1]) + Out(t, [], masks[|masks| - 1])
  }

  /** q decomposes one of the masks. */
  ghost predicate DecomposesOneOf(B: seq<nat>, W: seq<seq<string>>, masks: seq<nat>, q: seq<Pick>)
  {
    exists i :: 0 <= i < |masks| && IsDecomposition(B, W, q, masks[i])
  }

  /** Searching distinct masks one after the other prints every
      decomposition of one of them, each exactly once. */
  lemma {:induction false} PrintedCount(t: Tables, masks: seq<nat>, q: seq<Pick>)
    requires Ready(t) && InTable(t, masks) && Distinct(masks)
    ensures multiset(Printed(t, masks))[q] == if DecomposesOneOf(t.masks, t.words, masks, q) then 1 else 0
  {
    if masks != [] {
      var init, m := masks[..|masks| - 1], masks[|masks| - 1];
      PrintedCount(t, init, q);
      SearchExact(t, m, q);
      var inA, inB := DecomposesOneOf(t.masks, t.words, init, q), IsDecomposition(t.masks, t.words, q, m);
      CountConcat(Printed(t, init), Out(t, [], m), q, inA, inB);
      if DecomposesOneOf(t.masks, t.words, masks, q) && !inB {
        var i :| 0 <= i < |masks| && IsDecomposition(t.masks, t.words, q, masks[i]);
        assert init[i] == masks[i];
      }
      if inB {
        assert masks[|masks| - 1] == m;
      }
    }
  }

  /** Two lists each holding q once exactly when their condition holds,
      the conditions never both true, hold q once together exactly when
      either holds. */
  lemma CountConcat(a: seq<seq<Pick>>, b: seq<seq<Pick>>, q: seq<Pick>, inA: bool, inB: bool)
    requires multiset(a)[q] == (if inA then 1 else 0)
    requires multiset(b)[q] == (if inB then 1 else 0)
    requires !(inA && inB)
    ensures multiset(a + b)[q] == if inA || inB then 1 else 0
  {
    assert multiset(a + b) == multiset(a) + multiset(b);
  }

  /** Five-letter words that cover all letters but one: a fifth of the
      remaining letters, five words for 26 letters. */
  lemma WordCount(B: seq<nat>, W: seq<seq<string>>, q: seq<Pick>, letters: nat, skip: nat)
    requires skip < letters
    requires forall j :: 0 <= j < |B| ==> PopCount(B[j]) == 5
    requires IsDecomposition(B, W, q, AllBut(letters, skip))
    ensures 5 * |q| == letters - 1
  {
    CoverSize(B, WordsOf(q), AllBut(letters, skip));
    AllButSize(letters, skip);
  }

  /** q decomposes the alphabet of the given size without one of its
      letters. */
  ghost predicate SkipsOneOf(B: seq<nat>, W: seq<seq<string>>, letters: nat, q: seq<Pick>)
  {
    exists skip :: 0 <= skip < letters && IsDecomposition(B, W, q, AllBut(letters, skip))
  }

  /** q is a line the program should print: a decomposition of the whole
      alphabet but one letter. */
  ghost predicate SolutionLine(B: seq<nat>, W: seq<seq<string>>, q: seq<Pick>)
  {
    SkipsOneOf(B, W, Letters, q)
  }

  /** Every mask `read_words` returns has five letters. */
  lemma FiveLetterMasks(tokens: seq<string>, bitmasks: seq<nat>, words: seq<seq<string>>)
    requires WordList(tokens, bitmasks, words)
    ensures forall j :: 0 <= j < |bitmasks| ==> PopCount(bitmasks[j]) == 5
  {
    forall j | 0 <= j < |bitmasks| ensures PopCount(bitmasks[j]) == 5 {
      assert words[j][0] in words[j];
      CandidateMask(words[j][0]);
    }
  }

  /** The driver's first n masks, one per skipped letter, in the order
      the driver searches them. The loop of SearchAll builds this list one
      mask at a time; SkipMasks describes the finished list entry by entry
      (SkipListEntries connects the two), which is the form the counting
      lemmas use. */
  function SkipList(letters: nat, n: nat): (masks: seq<nat>)
    requires n <= letters
    ensures |masks| == n
  {
    if n == 0 then [] else SkipList(letters, n - 1) + [AllBut(letters, n - 1)]
  }

  /** The driver's masks, one per skipped letter, in the order the
      driver searches them, stated entry by entry. Unlike SkipList it is
      not recursive, so a contract that names it with the 26 letters of the
      program does not unfold 26 steps of recursion. */
  ghost predicate SkipMasks(letters: nat, masks: seq<nat>)
  {
    |masks| == letters && forall i :: 0 <= i < letters ==> masks[i] == AllBut(letters, i)
  }

  /** The whole list holds the driver's masks. */
  lemma {:induction false} SkipListEntries(letters: nat, n: nat)
    requires n <= letters
    ensures forall i :: 0 <= i < n ==> SkipList(letters, n)[i] == AllBut(letters, i)
    ensures n == letters ==> SkipMasks(letters, SkipList(letters, n))
  {
    if n > 0 {
      SkipListEntries(letters, n - 1);
    }
  }

  /** One more search appends its lines. */
  lemma PrintedAppend(t: Tables, masks: seq<nat>, m: nat)
    requires WellFormed(t) && InTable(t, masks) && m < |t.ptrs|
    ensures InTable(t, masks + [m])
    ensures Printed(t, masks + [m]) == Printed(t, masks) + Out(t, [], m)
  {
    assert (masks + [m])[..|masks|] == masks;
  }

  /** The driver loop: one search per skipped letter, from an empty
      stack, printing to the same output. */
  method SearchAll(t: Tables, letters: nat)
    returns (lines: seq<seq<string>>, picks: seq<seq<Pick>>, ghost masks: seq<nat>)
    requires WellFormed(t) && |t.ptrs| == Pow2(letters)
    ensures lines == SpellAll(t.words, picks)
    ensures SkipMasks(letters, masks) && InTable(t, masks) && picks == Printed(t, masks)
  {
    var finder := new Enumerator(t);
    masks := [];
    for skip := 0 to letters
      invariant finder.Valid() && finder.t == t
      invariant finder.stack == [] && finder.path == []
      invariant masks == SkipList(letters, skip) && InTable(t, masks)
      invariant finder.emitted == Printed(t, masks)
    {
      var mask := AndNot(LowMask(letters), Pow2(skip));
      AllButAndNot(letters, skip);
      AllButSize(letters, skip);
      finder.Search(mask);
      PrintedAppend(t, masks, mask);
      masks := masks + [mask];
    }
    lines, picks := finder.output, finder.emitted;
    SkipListEntries(letters, letters);
  }

  /** The driver prints every line that skips one letter, once, and
      nothing else. */
  lemma DriverCount(t: Tables, letters: nat, masks: seq<nat>, q: seq<Pick>)
    requires Ready(t) && SkipMasks(letters, masks) && InTable(t, masks)
    ensures multiset(Printed(t, masks))[q] == if SkipsOneOf(t.masks, t.words, letters, q) then 1 else 0
  {
    forall i, j | 0 <= i < j < |masks| ensures masks[i] != masks[j] {
      if masks[i] == masks[j] {
        AllButInjective(letters, i, j);
      }
    }
    PrintedCount(t, masks, q);
    SkipsFromMasks(t.masks, t.words, letters, masks, q);
  }

  /** What the driver prints, over all lines at once. */
  lemma DriverOutput(t: Tables, letters: nat, masks: seq<nat>, picks: seq<seq<Pick>>)
    requires Ready(t) && SkipMasks(letters, masks) && InTable(t, masks) && picks == Printed(t, masks)
    ensures forall q :: multiset(picks)[q] == if SkipsOneOf(t.masks, t.words, letters, q) then 1 else 0
    ensures (forall j :: 0 <= j < |t.masks| ==> PopCount(t.masks[j]) == 5) ==>
      forall q :: q in picks ==> 5 * |q| == letters - 1
  {
    forall q ensures multiset(picks)[q] == if SkipsOneOf(t.masks, t.words, letters, q) then 1 else 0 {
      DriverCount(t, letters, masks, q);
    }
    if forall j :: 0 <= j < |t.masks| ==> PopCount(t.masks[j]) == 5 {
      forall q | q in picks ensures 5 * |q| == letters - 1 {
        DriverLineSize(t, letters, masks, q);
      }
    }
  }

  /** With five-letter words, every printed line has (letters - 1) / 5
      words. */
  lemma DriverLineSize(t: Tables, letters: nat, masks: seq<nat>, q: seq<Pick>)
    requires Ready(t) && SkipMasks(letters, masks) && InTable(t, masks)
    requires forall j :: 0 <= j < |t.masks| ==> PopCount(t.masks[j]) == 5
    requires q in Printed(t, masks)
    ensures 5 * |q| == letters - 1
  {
    DriverCount(t, letters, masks, q);
    assert q in multiset(Printed(t, masks));
    var skip :| 0 <= skip < letters && IsDecomposition(t.masks, t.words, q, AllBut(letters, skip));
    WordCount(t.masks, t.words, q, letters, skip);
  }

  /** The driver's masks, listed, are decomposed exactly by the lines that
      skip one letter. */
  lemma SkipsFromMasks(B: seq<nat>, W: seq<seq<string>>, letters: nat, masks: seq<nat>, q: seq<Pick>)
    requires SkipMasks(letters, masks)
    ensures DecomposesOneOf(B, W, masks, q) <==> SkipsOneOf(B, W, letters, q)
  {
    if SkipsOneOf(B, W, letters, q) {
      var skip :| 0 <= skip < letters && IsDecomposition(B, W, q, AllBut(letters, skip));
      assert IsDecomposition(B, W, q, masks[skip]);
    }
  }

  /** `main` after argument handling, on an already split word list. */
  method Run(tokens: seq<string>, dedupe: bool)
    returns (bitmasks: seq<nat>, words: seq<seq<string>>, lines: seq<seq<string>>, picks: seq<seq<Pick>>,
             ghost t: Tables, ghost masks: seq<nat>)
    requires LowercaseFives(tokens)
    ensures WordList(tokens, bitmasks, words)
    ensures !dedupe ==> multiset(Flatten(words)) == multiset(CandidateTokens(tokens))
    ensures !dedupe ==> Flatten(words) == Spellings(SortEntries(Candidates(tokens)))
    ensures dedupe ==> forall k :: 0 <= k < |words| ==> (|words[k]| == 1 &&
      forall s :: s in tokens && IsCandidate(s) && WordMask(s) == bitmasks[k] ==> StrLe(words[k][0], s))
    ensures lines == SpellAll(words, picks)
    ensures forall q :: multiset(picks)[q] == if SolutionLine(bitmasks, words, q) then 1 else 0
    ensures forall q :: q in picks ==> |q| == 5
    ensures t.masks == bitmasks && t.words == words && Ready(t)
    ensures SkipMasks(Letters, masks) && InTable(t, masks) && picks == Printed(t, masks)
  {
    bitmasks, words := ReadWords(tokens, dedupe);
    FiveLetterMasks(tokens, bitmasks, words);
    lines, picks, t, masks := Solve(bitmasks, words);
  }

  /** Everything `main` does after `read_words`, on five-letter masks. */
  method Solve(bitmasks: seq<nat>, words: seq<seq<string>>)
    returns (lines: seq<seq<string>>, picks: seq<seq<Pick>>, ghost t: Tables, ghost masks: seq<nat>)
    requires ValidMasks(bitmasks) && |words| == |bitmasks|
    requires forall j :: 0 <= j < |bitmasks| ==> PopCount(bitmasks[j]) == 5
    ensures lines == SpellAll(words, picks)
    ensures forall q :: multiset(picks)[q] == if SolutionLine(bitmasks, words, q) then 1 else 0
    ensures forall q :: q in picks ==> |q| == 5
    ensures t.masks == bitmasks && t.words == words && Ready(t)
    ensures SkipMasks(Letters, masks) && InTable(t, masks) && picks == Printed(t, masks)
  {
    var tables := BuildTables(bitmasks, words);
    t := tables;
    lines, picks, masks := SearchAll(tables, Letters);
    DriverOutput(t, Letters, masks, picks);
  }

  /** The middle of `main`: the bound table, then the dynamic program and
      its index, gathered for the search. */
  method BuildTables(bitmasks: seq<nat>, words: seq<seq<string>>) returns (t: Tables)
    requires ValidMasks(bitmasks) && |words| == |bitmasks|
    ensures t.masks == bitmasks && t.words == words
    ensures Ready(t) && |t.ptrs| == Pow2(Letters)
  {
    var bounds := InnerLoopBounds(bitmasks, TableSize);
    var hasSolution, results, resultPtrs := BuildIndex(bitmasks, bounds);
    t := Tables(bitmasks, words, results, resultPtrs[..]);
    ReadyFromIndex(t);
    TableSizeIsPow2();
  }
}

/** The backtracking enumeration `search`: it walks the linked list of the
    current mask, pushes each spelling of each listed word, recurses on what
    the word leaves, pops, and emits the stack when nothing is left. Printing
    a line is modelled as appending the stack to `output`. */
module Enumeration {
  import opened Masks
  import opened Cover
  import opened SolutionIndex

  /** The read-only inputs of `search`: the candidate masks and spelling
      groups, the `results` log and the `result_ptrs` head table. */
  datatype Tables = Tables(masks: seq<nat>, words: seq<seq<string>>, results: seq<Record>, ptrs: seq<int>)

  /** What the walk needs to stay in bounds and to terminate: heads and
      links point at earlier records of the same mask, and taking a record's
      word out of its mask leaves a smaller mask. */
  ghost predicate WellFormed(t: Tables)
  {
    |t.words| == |t.masks| &&
    (forall m :: 0 <= m < |t.ptrs| ==>
      t.ptrs[m] == -1 || (0 <= t.ptrs[m] < |t.results| && t.results[t.ptrs[m]].target == m)) &&
    (forall r :: 0 <= r < |t.results| ==>
      var rec := t.results[r];
      rec.word < |t.masks| && rec.target < |t.ptrs| &&
      AndNot(rec.target, t.masks[rec.word]) < rec.target &&
      (rec.prev == -1 || (0 <= rec.prev < r && t.results[rec.prev].target == rec.target)))
  }

  /** The tables as the dynamic program leaves them. */
  ghost predicate Ready(t: Tables)
  {
    WellFormed(t) && ValidMasks(t.masks) && IndexValid(t.masks, t.results, t.ptrs)
  }

  lemma ReadyFromIndex(t: Tables)
    requires ValidMasks(t.masks) && |t.words| == |t.masks|
    requires IndexValid(t.masks, t.results, t.ptrs)
    ensures Ready(t)
  {
    forall m | 0 <= m < |t.ptrs|
      ensures t.ptrs[m] == -1 || (0 <= t.ptrs[m] < |t.results| && t.results[t.ptrs[m]].target == m)
    {
      assert LastWith(t.results, |t.results|, m, t.ptrs[m]);
    }
    forall r | 0 <= r < |t.results|
      ensures var rec := t.results[r];
        rec.word < |t.masks| && rec.target < |t.ptrs| &&
        AndNot(rec.target, t.masks[rec.word]) < rec.target &&
        (rec.prev == -1 || (0 <= rec.prev < r && t.results[rec.prev].target == rec.target))
    {
      assert LastWith(t.results, r, t.results[r].target, t.results[r].prev);
      RemoveSmaller(t.results[r].target, t.masks[t.results[r].word]);
    }
  }

  /** The printed spellings of a list of picks. */
  function Spell(W: seq<seq<string>>, q: seq<Pick>): (line: seq<string>)
    ensures |line| == |q|
  {
    seq(|q|, k requires 0 <= k < |q| =>
      if q[k].word < |W| && q[k].spelling < |W[q[k].word]| then W[q[k].word][q[k].spelling] else "")
  }

  function SpellAll(W: seq<seq<string>>, lines: seq<seq<Pick>>): (out: seq<seq<string>>)
    ensures |out| == |lines|
  {
    seq(|lines|, k requires 0 <= k < |lines| => Spell(W, lines[k]))
  }

  lemma RemoveSmaller(m: nat, w: nat)
    requires 0 < w && Subset(w, m)
    ensures AndNot(m, w) < m
  {
    BitsAndNot(m, w);
    BitsEmpty(w);
    SubsetLess(AndNot(m, w), m);
  }

  // ---------------------------------------------------------------------
  // The lines one call of `search` emits, as functions of the tables.

  /** The lines `search` emits for mask m when the stack holds pre. */
  ghost function Out(t: Tables, pre: seq<Pick>, m: nat): seq<seq<Pick>>
    requires WellFormed(t) && m < |t.ptrs|
    decreases m, 2, 0
  {
    if m == 0 then [pre] else ChainOut(t, pre, m, t.ptrs[m])
  }

  /** The lines for the records of m from r down the list. */
  ghost function ChainOut(t: Tables, pre: seq<Pick>, m: nat, r: int): seq<seq<Pick>>
    requires WellFormed(t) && 0 < m < |t.ptrs|
    requires r == -1 || (0 <= r < |t.results| && t.results[r].target == m)
    decreases m, 1, r + 1
  {
    if r < 0 then [] else GroupOut(t, pre, m, r, 0) + ChainOut(t, pre, m, t.results[r].prev)
  }

  /** The lines for the spellings s, s+1, ... of the word of record r. */
  ghost function GroupOut(t: Tables, pre: seq<Pick>, m: nat, r: nat, s: nat): seq<seq<Pick>>
    requires WellFormed(t) && 0 < m < |t.ptrs|
    requires r < |t.results| && t.results[r].target == m
    decreases m, 0, |t.words[t.results[r].word]| - s
  {
    var e := t.results[r].word;
    if s >= |t.words[e]| then []
    else
      Out(t, pre + [Pick(e, s)], AndNot(m, t.masks[e])) + GroupOut(t, pre, m, r, s + 1)
  }

  /** x is the stack pre followed by a decomposition of m. */
  ghost predicate Extends(t: Tables, pre: seq<Pick>, x: seq<Pick>, m: nat)
  {
    |pre| <= |x| && x[..|pre|] == pre && IsDecomposition(t.masks, t.words, x[|pre|..], m)
  }

  /** x is the stack pre, then some spelling of word e, then a
      decomposition of what e leaves of m. */
  ghost predicate Via(t: Tables, pre: seq<Pick>, x: seq<Pick>, m: nat, e: nat)
  {
    e < |t.masks| && e < |t.words| &&
    |x| > |pre| && x[..|pre|] == pre && x[|pre|].word == e &&
    x[|pre|].spelling < |t.words[e]| &&
    IsDecomposition(t.masks, t.words, x[|pre| + 1..], AndNot(m, t.masks[e]))
  }

  /** Some record of m at or before r lists word w. */
  ghost predicate ListedUpTo(t: Tables, m: nat, r: int, w: nat)
  {
    exists r' :: 0 <= r' <= r && r' < |t.results| && t.results[r'].target == m && t.results[r'].word == w
  }

  // ---------------------------------------------------------------------
  // Counting: every decomposition appears exactly once, nothing else does.

  /** The search from mask m with stack pre emits exactly the stack followed
      by a decomposition of m, each one exactly once. */
  lemma {:induction false} OutCount(t: Tables, pre: seq<Pick>, m: nat, x: seq<Pick>)
    requires Ready(t) && m < |t.ptrs|
    ensures multiset(Out(t, pre, m))[x] == if Extends(t, pre, x, m) then 1 else 0
    decreases m, 2, 0
  {
    if m == 0 {
      if |pre| <= |x| {
        DecompositionOfZero(t.masks, t.words, x[|pre|..]);
        if x == pre {
          assert x[|pre|..] == [];
        } else if x[..|pre|] == pre {
          assert x[|pre|..] != [];
        }
      }
    } else {
      var p := t.ptrs[m];
      assert LastWith(t.results, |t.results|, m, p);
      ChainCount(t, pre, m, p, x);
      if |x| > |pre| && x[..|pre|] == pre {
        var q := x[|pre|..];
        assert q[1..] == x[|pre| + 1..];
        assert q[0] == x[|pre|];
        DecompositionStep(t.masks, t.words, q, m);
        ListedIff(t, m, q[0].word);
      } else if |x| == |pre| && x[..|pre|] == pre {
        DecompositionStep(t.masks, t.words, x[|pre|..], m);
      }
    }
  }

  /** A word is on the list of m exactly when it is a top word of m that
      leaves a reachable mask. */
  lemma ListedIff(t: Tables, m: nat, w: nat)
    requires Ready(t) && 0 < m < |t.ptrs|
    ensures ListedUpTo(t, m, t.ptrs[m], w) <==>
      TopWord(t.masks, m, w) && Reachable(t.masks, AndNot(m, t.masks[w]))
  {
    assert LastWith(t.results, |t.results|, m, t.ptrs[m]);
    if TopWord(t.masks, m, w) && Reachable(t.masks, AndNot(m, t.masks[w])) {
      var r :| 0 <= r < |t.results| && t.results[r].target == m && t.results[r].word == w;
      assert r <= t.ptrs[m];
    }
  }

  lemma {:induction false} ChainCount(t: Tables, pre: seq<Pick>, m: nat, r: int, x: seq<Pick>)
    requires Ready(t) && 0 < m < |t.ptrs|
    requires r == -1 || (0 <= r < |t.results| && t.results[r].target == m)
    ensures multiset(ChainOut(t, pre, m, r))[x] ==
      if |x| > |pre| && ListedUpTo(t, m, r, x[|pre|].word) && Via(t, pre, x, m, x[|pre|].word)
      then 1 else 0
    decreases m, 1, r + 1
  {
    if r >= 0 {
      var rec := t.results[r];
      assert LastWith(t.results, r, m, rec.prev);
      GroupCount(t, pre, m, r, 0, x);
      ChainCount(t, pre, m, rec.prev, x);
      if |x| > |pre| {
        ListedStep(t, m, r, x[|pre|].word);
      }
    }
  }

  /** Record r lists w or an earlier record of m does, never both. */
  lemma ListedStep(t: Tables, m: nat, r: nat, w: nat)
    requires WellFormed(t) && NoRepeat(t.results)
    requires r < |t.results| && t.results[r].target == m
    requires LastWith(t.results, r, m, t.results[r].prev)
    ensures var rec := t.results[r];
      (ListedUpTo(t, m, r, w) <==> w == rec.word || ListedUpTo(t, m, rec.prev, w)) &&
      !(w == rec.word && ListedUpTo(t, m, rec.prev, w))
  {
    var rec := t.results[r];
    if ListedUpTo(t, m, r, w) && w != rec.word {
      var r' :| 0 <= r' <= r && r' < |t.results| && t.results[r'].target == m && t.results[r'].word == w;
      assert r' <= rec.prev;
    }
  }

  lemma {:induction false} GroupCount(t: Tables, pre: seq<Pick>, m: nat, r: nat, s: nat, x: seq<Pick>)
    requires Ready(t) && 0 < m < |t.ptrs|
    requires r < |t.results| && t.results[r].target == m
    ensures multiset(GroupOut(t, pre, m, r, s))[x] ==
      if Via(t, pre, x, m, t.results[r].word) && s <= x[|pre|].spelling then 1 else 0
    decreases m, 0, |t.words[t.results[r].word]| - s
  {
    var e := t.results[r].word;
    if s < |t.words[e]| {
      var pre' := pre + [Pick(e, s)];
      OutCount(t, pre', AndNot(m, t.masks[e]), x);
      GroupCount(t, pre, m, r, s + 1, x);
      ExtendsVia(t, pre, x, m, e, s);
    }
  }

  /** Extending the stack by spelling s of word e, then a decomposition of
      what e leaves, is Via e with that spelling. */
  lemma ExtendsVia(t: Tables, pre: seq<Pick>, x: seq<Pick>, m: nat, e: nat, s: nat)
    requires e < |t.masks| && e < |t.words| && s < |t.words[e]|
    ensures Extends(t, pre + [Pick(e, s)], x, AndNot(m, t.masks[e])) <==>
      Via(t, pre, x, m, e) && x[|pre|].spelling == s
  {
    PrefixStep(pre, x, Pick(e, s));
  }

  /** x starts with pre + [p] exactly when it starts with pre and then p. */
  lemma PrefixStep(pre: seq<Pick>, x: seq<Pick>, p: Pick)
    ensures |pre| + 1 <= |x| && x[..|pre| + 1] == pre + [p] <==>
      |pre| < |x| && x[..|pre|] == pre && x[|pre|] == p
  {
    if |pre| < |x| {
      assert x[..|pre| + 1] == x[..|pre|] + [x[|pre|]];
    }
  }

  /** The search from an empty stack emits every decomposition of m exactly
      once and nothing else: sound, complete and free of duplicates. */
  lemma SearchExact(t: Tables, m: nat, q: seq<Pick>)
    requires Ready(t) && m < |t.ptrs|
    ensures multiset(Out(t, [], m))[q] == if IsDecomposition(t.masks, t.words, q, m) then 1 else 0
  {
    OutCount(t, [], m, q);
    assert q[..0] == [] && q[0..] == q;
  }

  /** Every cover of m shows up in the search, its words in decreasing
      order of leading letter. */
  lemma EveryCoverListed(t: Tables, ws: seq<nat>, m: nat)
    requires Ready(t) && m < |t.ptrs|
    requires forall j :: 0 <= j < |t.words| ==> |t.words[j]| > 0
    requires IsCover(t.masks, ws, m)
    ensures exists q :: q in Out(t, [], m) && multiset(WordsOf(q)) == multiset(ws)
  {
    var q := CoverOrdered(t.masks, t.words, ws, m);
    SearchExact(t, m, q);
    assert q in multiset(Out(t, [], m));
  }

  // ---------------------------------------------------------------------

  /** The search state: the shared stack of `search` and the lines printed
      so far, with the picks behind them. */
  class Enumerator {
    const t: Tables
    var stack: seq<string>
    var output: seq<seq<string>>
    var path: seq<Pick>
    var emitted: seq<seq<Pick>>

    ghost predicate Valid()
      reads this
    {
      WellFormed(t) && stack == Spell(t.words, path) && output == SpellAll(t.words, emitted)
    }

    constructor (t: Tables)
      requires WellFormed(t)
      ensures Valid() && this.t == t
      ensures stack == [] && path == [] && output == [] && emitted == []
    {
      this.t := t;
      stack, path := [], [];
      output, emitted := [], [];
    }

    /** `search(stack, mask, ...)`: appends the lines of Out for the current
        stack and leaves the stack as it found it. */
    method Search(mask: nat)
      requires Valid() && mask < |t.ptrs|
      modifies this
      ensures Valid()
      ensures stack == old(stack) && path == old(path)
      ensures emitted == old(emitted) + Out(t, path, mask)
      decreases mask, 1
    {
      if mask == 0 {
        output := output + [stack];
        emitted := emitted + [path];
        assert output == SpellAll(t.words, emitted);
        return;
      }
      var r := t.ptrs[mask];
      while r >= 0
        invariant Valid() && stack == old(stack) && path == old(path)
        invariant r == -1 || (0 <= r < |t.results| && t.results[r].target == mask)
        invariant old(emitted) + Out(t, path, mask) == emitted + ChainOut(t, path, mask, r)
        decreases r + 1
      {
        SearchWord(mask, r);
        r := t.results[r].prev;
      }
    }

    /** One pass of the list walk in `search`: every spelling of the word of
        record r is pushed in turn, the rest of the mask searched, and the
        spelling popped. */
    method SearchWord(mask: nat, r: nat)
      requires Valid() && 0 < mask < |t.ptrs|
      requires r < |t.results| && t.results[r].target == mask
      modifies this
      ensures Valid()
      ensures stack == old(stack) && path == old(path)
      ensures emitted == old(emitted) + GroupOut(t, path, mask, r, 0)
      decreases mask, 0
    {
      var e := t.results[r].word;
      var rest := AndNot(mask, t.masks[e]);
      for s := 0 to |t.words[e]|
        invariant Valid() && stack == old(stack) && path == old(path)
        invariant old(emitted) + GroupOut(t, path, mask, r, 0) == emitted + GroupOut(t, path, mask, r, s)
      {
        ghost var before := emitted;
        stack := stack + [t.words[e][s]];
        path := path + [Pick(e, s)];
        Search(rest);
        stack := stack[..|stack| - 1];
        path := path[..|path| - 1];
        assert path == old(path);
        assert emitted == before + Out(t, path + [Pick(e, s)], rest);
        assert GroupOut(t, path, mask, r, s) ==
          Out(t, path + [Pick(e, s)], rest) + GroupOut(t, path, mask, r, s + 1);
      }
    }
  }
}

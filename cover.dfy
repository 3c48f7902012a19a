/** Covers: which letter masks are disjoint unions of candidate word masks.
    `B` is the strictly ascending list of candidate masks (`word_bitmasks`)
    and a cover is a list of indices into it. This is the reference notion
    that the reachability table and the search are proved against. */
module Cover {
  import opened Masks

  /** One word of a solution line: candidate index and which of its
      spellings is printed. */
  datatype Pick = Pick(word: nat, spelling: nat)

  ghost predicate ValidWords(B: seq<nat>, ws: seq<nat>)
  {
    forall t :: 0 <= t < |ws| ==> ws[t] < |B|
  }

  /** The union of the masks of the words ws. */
  ghost function Union(B: seq<nat>, ws: seq<nat>): nat
    requires ValidWords(B, ws)
  {
    if ws == [] then 0 else Or(B[ws[0]], Union(B, ws[1..]))
  }

  ghost predicate PairwiseDisjoint(B: seq<nat>, ws: seq<nat>)
    requires ValidWords(B, ws)
  {
    forall s, t :: 0 <= s < t < |ws| ==> Disjoint(B[ws[s]], B[ws[t]])
  }

  /** ws is a set of pairwise-disjoint candidates whose union is m. */
  ghost predicate IsCover(B: seq<nat>, ws: seq<nat>, m: nat)
  {
    ValidWords(B, ws) && PairwiseDisjoint(B, ws) && Union(B, ws) == m
  }

  /** m is the union of some pairwise-disjoint candidate masks; this is what
      `has_solution[m]` is meant to record. */
  ghost predicate Reachable(B: seq<nat>, m: nat)
  {
    exists ws :: IsCover(B, ws, m)
  }

  /** Candidate j carries the leading letter of m and lies inside m. */
  ghost predicate TopWord(B: seq<nat>, m: nat, j: nat)
  {
    m > 0 && j < |B| && Subset(B[j], m) && Msb(B[j]) == Msb(m)
  }

  function WordsOf(q: seq<Pick>): (ws: seq<nat>)
    ensures |ws| == |q| && forall t :: 0 <= t < |q| ==> ws[t] == q[t].word
  {
    seq(|q|, t requires 0 <= t < |q| => q[t].word)
  }

  ghost predicate ValidPicks(B: seq<nat>, W: seq<seq<string>>, q: seq<Pick>)
  {
    forall t :: 0 <= t < |q| ==> q[t].word < |B| && q[t].word < |W| && q[t].spelling < |W[q[t].word]|
  }

  /** q is a solution for m written out as the search prints it: a cover of m
      by pairwise-disjoint candidates, one chosen spelling each, listed in
      strictly decreasing order of leading letter. */
  ghost predicate IsDecomposition(B: seq<nat>, W: seq<seq<string>>, q: seq<Pick>, m: nat)
  {
    ValidPicks(B, W, q) &&
    IsCover(B, WordsOf(q), m) &&
    forall s, t :: 0 <= s < t < |q| ==> Msb(B[q[s].word]) > Msb(B[q[t].word])
  }

  /** The shape of `word_bitmasks`: strictly ascending, non-empty masks that
      fit in the table. */
  ghost predicate ValidMasks(B: seq<nat>)
  {
    (forall s, t :: 0 <= s < t < |B| ==> B[s] < B[t]) &&
    (forall j :: 0 <= j < |B| ==> 0 < B[j] < TableSize)
  }

  // ---------------------------------------------------------------------

  lemma {:induction false} UnionBits(B: seq<nat>, ws: seq<nat>, k: nat)
    requires ValidWords(B, ws)
    ensures k in Bits(Union(B, ws)) <==> exists t :: 0 <= t < |ws| && k in Bits(B[ws[t]])
  {
    if ws == [] {
      BitsEmpty(0);
    } else {
      BitsOr(B[ws[0]], Union(B, ws[1..]));
      UnionBits(B, ws[1..], k);
      if k in Bits(Union(B, ws[1..])) {
        var t :| 0 <= t < |ws[1..]| && k in Bits(B[ws[1..][t]]);
        assert k in Bits(B[ws[t + 1]]);
      }
      if t :| 0 <= t < |ws| && k in Bits(B[ws[t]]) {
        if t > 0 { assert ws[1..][t - 1] == ws[t]; }
      }
    }
  }

  lemma UnionSubset(B: seq<nat>, ws: seq<nat>, t: nat)
    requires ValidWords(B, ws) && t < |ws|
    ensures Subset(B[ws[t]], Union(B, ws))
  {
    forall k | k in Bits(B[ws[t]])
      ensures k in Bits(Union(B, ws))
    {
      UnionBits(B, ws, k);
    }
  }

  lemma EmptyCoverReachable(B: seq<nat>)
    ensures Reachable(B, 0)
  {
    assert IsCover(B, [], 0);
  }

  /** Taking a top word out of m leaves a smaller mask with a smaller leading
      letter, disjoint from the word, which gives m back when the word is
      added again. */
  lemma Remainder(B: seq<nat>, m: nat, j: nat)
    requires TopWord(B, m, j)
    ensures var rest := AndNot(m, B[j]);
      rest < m && Msb(rest) < Msb(m) && Disjoint(rest, B[j]) &&
      Subset(rest, m) && Or(B[j], rest) == m && Or(rest, B[j]) == m
  {
    var rest := AndNot(m, B[j]);
    BitsAndNot(m, B[j]);
    BitsOr(B[j], rest);
    assert Bits(Or(B[j], rest)) == Bits(m);
    BitsInjective(Or(B[j], rest), m);
    BitsOr(rest, B[j]);
    BitsInjective(Or(rest, B[j]), m);
    MsbIsMax(m);
    MsbIsMax(B[j]);
    MsbIsMax(rest);
    assert Msb(rest) < Msb(m) by {
      if rest > 0 { assert Msb(rest) in Bits(m) - Bits(B[j]); }
    }
    MsbOrder(rest, m);
  }

  /** Extending rest by a disjoint word whose leading letter is above that of
      rest gives a mask whose top word is that word, and removing the word
      again gives back rest. */
  lemma Extension(B: seq<nat>, rest: nat, j: nat)
    requires j < |B| && Disjoint(rest, B[j]) && Msb(B[j]) > Msb(rest)
    ensures var m := Or(rest, B[j]);
      TopWord(B, m, j) && AndNot(m, B[j]) == rest && rest < m
  {
    var m := Or(rest, B[j]);
    BitsOr(rest, B[j]);
    BitsAndNot(m, B[j]);
    assert Bits(AndNot(m, B[j])) == Bits(rest);
    BitsInjective(AndNot(m, B[j]), rest);
    MsbIsMax(B[j]);
    MsbIsMax(rest);
    MsbIsMax(m);
    assert B[j] > 0;
    MsbUnique(m, Msb(B[j]));
    MsbOrder(rest, m);
  }

  /** ws with its t-th element taken out. */
  function Without(ws: seq<nat>, t: nat): (r: seq<nat>)
    requires t < |ws|
    ensures |r| == |ws| - 1
    ensures forall s :: 0 <= s < |r| ==> r[s] == if s < t then ws[s] else ws[s + 1]
  {
    ws[..t] + ws[t + 1..]
  }

  lemma WithoutDisjoint(B: seq<nat>, ws: seq<nat>, t: nat)
    requires ValidWords(B, ws) && PairwiseDisjoint(B, ws) && t < |ws|
    ensures ValidWords(B, Without(ws, t)) && PairwiseDisjoint(B, Without(ws, t))
  {
    var rest := Without(ws, t);
    forall s1, s2 | 0 <= s1 < s2 < |rest|
      ensures Disjoint(B[rest[s1]], B[rest[s2]])
    {
      var i1 := if s1 < t then s1 else s1 + 1;
      var i2 := if s2 < t then s2 else s2 + 1;
      assert i1 < i2 && rest[s1] == ws[i1] && rest[s2] == ws[i2];
    }
  }

  lemma WithoutBits(B: seq<nat>, ws: seq<nat>, t: nat, k: nat)
    requires ValidWords(B, ws) && PairwiseDisjoint(B, ws) && t < |ws|
    ensures ValidWords(B, Without(ws, t))
    ensures k in Bits(Union(B, Without(ws, t))) <==>
            k in Bits(Union(B, ws)) && k !in Bits(B[ws[t]])
  {
    UnionBits(B, Without(ws, t), k);
    UnionBits(B, ws, k);
    if k in Bits(Union(B, Without(ws, t))) {
      WithoutBitsLeft(B, ws, t, k);
    }
    if k in Bits(Union(B, ws)) && k !in Bits(B[ws[t]]) {
      var i :| 0 <= i < |ws| && k in Bits(B[ws[i]]);
      var s := if i < t then i else i - 1;
      assert Without(ws, t)[s] == ws[i];
    }
  }

  /** A letter of a remaining word is not in the removed word. */
  lemma WithoutBitsLeft(B: seq<nat>, ws: seq<nat>, t: nat, k: nat)
    requires ValidWords(B, ws) && PairwiseDisjoint(B, ws) && t < |ws|
    requires exists s :: 0 <= s < |ws| - 1 && k in Bits(B[Without(ws, t)[s]])
    ensures k !in Bits(B[ws[t]])
  {
    var rest := Without(ws, t);
    var s :| 0 <= s < |rest| && k in Bits(B[rest[s]]);
    var i := if s < t then s else s + 1;
    assert k in Bits(B[ws[i]]) && i != t;
    if i < t {
      assert Disjoint(B[ws[i]], B[ws[t]]);
    } else {
      assert Disjoint(B[ws[t]], B[ws[i]]);
    }
  }

  /** Dropping one word from a cover of m covers m without that word. */
  lemma CoverRemove(B: seq<nat>, ws: seq<nat>, m: nat, t: nat)
    requires IsCover(B, ws, m) && t < |ws|
    ensures Subset(B[ws[t]], m)
    ensures IsCover(B, Without(ws, t), AndNot(m, B[ws[t]]))
  {
    UnionSubset(B, ws, t);
    var w := B[ws[t]];
    var rest := Without(ws, t);
    WithoutDisjoint(B, ws, t);
    BitsAndNot(m, w);
    forall k: nat
      ensures k in Bits(Union(B, rest)) <==> k in Bits(AndNot(m, w))
    {
      WithoutBits(B, ws, t, k);
    }
    assert Bits(Union(B, rest)) == Bits(AndNot(m, w));
    BitsInjective(Union(B, rest), AndNot(m, w));
  }

  /** A cover of what is left of m after a word inside m, plus that word,
      covers m. */
  lemma CoverPrepend(B: seq<nat>, ws: seq<nat>, m: nat, j: nat)
    requires j < |B| && Subset(B[j], m) && IsCover(B, ws, AndNot(m, B[j]))
    ensures IsCover(B, [j] + ws, m)
  {
    var rest := AndNot(m, B[j]);
    var ws' := [j] + ws;
    assert ws'[1..] == ws;
    BitsAndNot(m, B[j]);
    forall s, t | 0 <= s < t < |ws'|
      ensures Disjoint(B[ws'[s]], B[ws'[t]])
    {
      if s == 0 {
        UnionSubset(B, ws, t - 1);
        assert ws'[t] == ws[t - 1];
      } else {
        assert ws'[s] == ws[s - 1] && ws'[t] == ws[t - 1];
      }
    }
    BitsOr(B[j], rest);
    assert Bits(Or(B[j], rest)) == Bits(m);
    BitsInjective(Or(B[j], rest), m);
  }

  /** The recurrence the dynamic program relies on: a non-empty mask is
      reachable exactly when removing some top word leaves a reachable mask.
      Only words holding the leading letter need be tried. */
  lemma ReachableStep(B: seq<nat>, m: nat)
    requires m > 0
    ensures Reachable(B, m) <==> exists j: nat :: TopWord(B, m, j) && Reachable(B, AndNot(m, B[j]))
  {
    if Reachable(B, m) {
      var ws :| IsCover(B, ws, m);
      MsbIsMax(m);
      UnionBits(B, ws, Msb(m) as nat);
      var t :| 0 <= t < |ws| && Msb(m) as nat in Bits(B[ws[t]]);
      CoverRemove(B, ws, m, t);
      SubsetMsb(B[ws[t]], m);
      MsbIsMax(B[ws[t]]);
      assert TopWord(B, m, ws[t]);
      assert IsCover(B, Without(ws, t), AndNot(m, B[ws[t]]));
    }
    if j: nat :| TopWord(B, m, j) && Reachable(B, AndNot(m, B[j])) {
      var ws :| IsCover(B, ws, AndNot(m, B[j]));
      CoverPrepend(B, ws, m, j);
    }
  }

  /** With non-empty candidate masks only the empty list decomposes 0. */
  lemma DecompositionOfZero(B: seq<nat>, W: seq<seq<string>>, q: seq<Pick>)
    requires forall j :: 0 <= j < |B| ==> B[j] > 0
    ensures IsDecomposition(B, W, q, 0) <==> q == []
  {
    if q != [] && IsDecomposition(B, W, q, 0) {
      UnionSubset(B, WordsOf(q), 0);
      BitsEmpty(0);
      BitsEmpty(B[q[0].word]);
    }
    if q == [] {
      assert IsCover(B, WordsOf(q), 0);
    }
  }

  /** A decomposition of a non-empty mask starts with a top word, and the
      rest of it decomposes what that word leaves; and conversely. */
  lemma DecompositionStep(B: seq<nat>, W: seq<seq<string>>, q: seq<Pick>, m: nat)
    requires m > 0
    ensures IsDecomposition(B, W, q, m) <==>
      |q| > 0 && TopWord(B, m, q[0].word) && q[0].word < |W| &&
      q[0].spelling < |W[q[0].word]| &&
      IsDecomposition(B, W, q[1..], AndNot(m, B[q[0].word]))
  {
    if IsDecomposition(B, W, q, m) {
      DecompositionHead(B, W, q, m);
    }
    if |q| > 0 && TopWord(B, m, q[0].word) && q[0].word < |W| &&
       q[0].spelling < |W[q[0].word]| &&
       IsDecomposition(B, W, q[1..], AndNot(m, B[q[0].word]))
    {
      DecompositionCons(B, W, q, m);
    }
  }

  lemma DecompositionHead(B: seq<nat>, W: seq<seq<string>>, q: seq<Pick>, m: nat)
    requires m > 0 && IsDecomposition(B, W, q, m)
    ensures |q| > 0 && TopWord(B, m, q[0].word)
    ensures IsDecomposition(B, W, q[1..], AndNot(m, B[q[0].word]))
  {
    HeadIsTop(B, W, q, m);
    var ws := WordsOf(q);
    CoverRemove(B, ws, m, 0);
    assert Without(ws, 0) == WordsOf(q[1..]);
    var q' := q[1..];
    assert forall s, t :: 0 <= s < t < |q'| ==> q'[s] == q[s + 1] && q'[t] == q[t + 1];
  }

  /** The leading letter of m belongs to some word of a decomposition,
      which must be the first. */
  lemma HeadIsTop(B: seq<nat>, W: seq<seq<string>>, q: seq<Pick>, m: nat)
    requires m > 0 && IsDecomposition(B, W, q, m)
    ensures |q| > 0 && TopWord(B, m, q[0].word)
  {
    var ws := WordsOf(q);
    MsbIsMax(m);
    UnionBits(B, ws, Msb(m) as nat);
    var t :| 0 <= t < |ws| && Msb(m) as nat in Bits(B[ws[t]]);
    UnionSubset(B, ws, t);
    UnionSubset(B, ws, 0);
    SubsetMsb(B[ws[t]], m);
    SubsetMsb(B[ws[0]], m);
    MsbIsMax(B[ws[t]]);
    assert Msb(B[q[0].word]) >= Msb(B[q[t].word]);
  }

  lemma DecompositionCons(B: seq<nat>, W: seq<seq<string>>, q: seq<Pick>, m: nat)
    requires |q| > 0 && TopWord(B, m, q[0].word) && q[0].word < |W|
    requires q[0].spelling < |W[q[0].word]|
    requires IsDecomposition(B, W, q[1..], AndNot(m, B[q[0].word]))
    ensures IsDecomposition(B, W, q, m)
  {
    var j := q[0].word;
    CoverPrepend(B, WordsOf(q[1..]), m, j);
    assert [j] + WordsOf(q[1..]) == WordsOf(q);
    ConsOrder(B, W, q, m);
    assert ValidPicks(B, W, q) by {
      forall t | 0 <= t < |q|
        ensures q[t].word < |B| && q[t].word < |W| && q[t].spelling < |W[q[t].word]|
      {
        if t > 0 { assert q[1..][t - 1] == q[t]; }
      }
    }
  }

  lemma ConsOrder(B: seq<nat>, W: seq<seq<string>>, q: seq<Pick>, m: nat)
    requires |q| > 0 && TopWord(B, m, q[0].word)
    requires IsDecomposition(B, W, q[1..], AndNot(m, B[q[0].word]))
    ensures forall s, t :: 0 <= s < t < |q| ==> Msb(B[q[s].word]) > Msb(B[q[t].word])
  {
    var j := q[0].word;
    var rest := AndNot(m, B[j]);
    Remainder(B, m, j);
    forall s, t | 0 <= s < t < |q|
      ensures Msb(B[q[s].word]) > Msb(B[q[t].word])
    {
      assert q[1..][t - 1] == q[t];
      if s == 0 {
        UnionSubset(B, WordsOf(q[1..]), t - 1);
        SubsetMsb(B[q[t].word], rest);
      } else {
        assert q[1..][s - 1] == q[s];
      }
    }
  }

  /** Every word of a cover has five letters, so a cover of m has
      PopCount(m) / 5 words. */
  lemma {:induction false} CoverSize(B: seq<nat>, ws: seq<nat>, m: nat)
    requires forall j :: 0 <= j < |B| ==> PopCount(B[j]) == 5
    requires IsCover(B, ws, m)
    ensures PopCount(m) == 5 * |ws|
  {
    if ws == [] {
      BitsEmpty(0);
    } else {
      CoverRemove(B, ws, m, 0);
      assert Without(ws, 0) == ws[1..];
      CoverSize(B, ws[1..], AndNot(m, B[ws[0]]));
      BitsAndNot(m, B[ws[0]]);
      assert Bits(B[ws[0]]) <= Bits(m);
      assert Bits(m) == Bits(B[ws[0]]) + Bits(AndNot(m, B[ws[0]]));
    }
  }

  /** Taking element t out of ws and adding it back gives the same
      multiset. */
  lemma WithoutMultiset(ws: seq<nat>, t: nat)
    requires t < |ws|
    ensures multiset(ws) == multiset(Without(ws, t)) + multiset{ws[t]}
  {
    assert ws == ws[..t] + [ws[t]] + ws[t + 1..];
  }

  /** A non-empty cover of m holds a top word of m. */
  lemma TopOfCover(B: seq<nat>, ws: seq<nat>, m: nat) returns (t: nat)
    requires ValidMasks(B) && IsCover(B, ws, m) && ws != []
    ensures t < |ws| && TopWord(B, m, ws[t])
  {
    UnionSubset(B, ws, 0);
    BitsEmpty(B[ws[0]]);
    BitsEmpty(m);
    MsbIsMax(m);
    var k: nat := Msb(m);
    UnionBits(B, ws, k);
    t :| 0 <= t < |ws| && k in Bits(B[ws[t]]);
    UnionSubset(B, ws, t);
    SubsetMsb(B[ws[t]], m);
    MsbIsMax(B[ws[t]]);
  }

  /** Every cover of m can be listed as the search lists it: some
      decomposition of m uses exactly the words of the cover, whichever
      spellings are chosen. */
  lemma {:induction false} CoverOrdered(B: seq<nat>, W: seq<seq<string>>, ws: seq<nat>, m: nat)
    returns (q: seq<Pick>)
    requires ValidMasks(B) && |W| == |B|
    requires forall j :: 0 <= j < |W| ==> |W[j]| > 0
    requires IsCover(B, ws, m)
    ensures IsDecomposition(B, W, q, m) && multiset(WordsOf(q)) == multiset(ws)
    decreases |ws|
  {
    if ws == [] {
      q := [];
      assert WordsOf(q) == [];
    } else {
      var t := TopOfCover(B, ws, m);
      var j := ws[t];
      CoverRemove(B, ws, m, t);
      var q' := CoverOrdered(B, W, Without(ws, t), AndNot(m, B[j]));
      PrependTop(B, W, q', m, j);
      WithoutMultiset(ws, t);
      q := [Pick(j, 0)] + q';
    }
  }

  /** A decomposition of what a top word leaves, with that word in front
      under its first spelling, decomposes m. */
  lemma PrependTop(B: seq<nat>, W: seq<seq<string>>, q': seq<Pick>, m: nat, j: nat)
    requires TopWord(B, m, j) && j < |W| && |W[j]| > 0
    requires IsDecomposition(B, W, q', AndNot(m, B[j]))
    ensures IsDecomposition(B, W, [Pick(j, 0)] + q', m)
    ensures WordsOf([Pick(j, 0)] + q') == [j] + WordsOf(q')
  {
    var q := [Pick(j, 0)] + q';
    assert q[1..] == q';
    DecompositionStep(B, W, q, m);
  }

  /** Picks listed in strictly decreasing order of leading letter. This is
      the order clause of IsDecomposition on its own, without the cover and
      spelling conditions, so that DescendingUnique holds for any two lists
      of picks, decompositions or not. */
  ghost predicate Descending(B: seq<nat>, q: seq<Pick>)
  {
    (forall t :: 0 <= t < |q| ==> q[t].word < |B|) &&
    forall s, t :: 0 <= s < t < |q| ==> Msb(B[q[s].word]) > Msb(B[q[t].word])
  }

  /** Two descending lists of the same picks start with the same pick. */
  lemma DescendingHead(B: seq<nat>, q1: seq<Pick>, q2: seq<Pick>)
    requires Descending(B, q1) && Descending(B, q2)
    requires multiset(q1) == multiset(q2) && q1 != []
    ensures q2 != [] && q1[0] == q2[0]
  {
    assert |q2| == |multiset(q2)| == |multiset(q1)| > 0;
    assert q1[0] in multiset(q2) && q2[0] in multiset(q1);
    var a :| 0 <= a < |q2| && q2[a] == q1[0];
    var b :| 0 <= b < |q1| && q1[b] == q2[0];
    assert a == 0;
  }

  /** Dropping equal heads keeps the multisets equal. */
  lemma TailMultiset(q1: seq<Pick>, q2: seq<Pick>)
    requires multiset(q1) == multiset(q2) && q1 != [] && q2 != [] && q1[0] == q2[0]
    ensures multiset(q1[1..]) == multiset(q2[1..])
  {
    assert q1 == [q1[0]] + q1[1..] && q2 == [q2[0]] + q2[1..];
    assert multiset(q1) == multiset{q1[0]} + multiset(q1[1..]);
    assert multiset(q2) == multiset{q1[0]} + multiset(q2[1..]);
    assert multiset(q1[1..]) == multiset(q1) - multiset{q1[0]};
  }

  /** The order of a decomposition is forced: two descending lists of the
      same picks are equal, so each choice of words and spellings is listed
      in one way only. */
  lemma {:induction false} DescendingUnique(B: seq<nat>, q1: seq<Pick>, q2: seq<Pick>)
    requires Descending(B, q1) && Descending(B, q2)
    requires multiset(q1) == multiset(q2)
    ensures q1 == q2
    decreases |q1|
  {
    if q1 == [] {
      assert |q2| == |multiset(q2)| == 0;
    } else {
      DescendingHead(B, q1, q2);
      TailMultiset(q1, q2);
      DescendingUnique(B, q1[1..], q2[1..]);
      assert q1 == [q1[0]] + q1[1..] && q2 == [q2[0]] + q2[1..];
    }
  }
}

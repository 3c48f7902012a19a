/** Word ingestion, `read_words`: keep the five-letter tokens without a
    repeated letter, give each the mask of its letters, sort the
    (mask, spelling) pairs and group equal masks. The word list arrives
    already split into tokens. */
module Ingest {
  import opened Masks
  import opened Cover

  predicate IsLower(c: char)
  {
    'a' <= c <= 'z'
  }

  predicate AllLower(w: string)
  {
    forall i :: 0 <= i < |w| ==> IsLower(w[i])
  }

  /** What the caller guarantees about the word list: every five-character
      token is made of the letters 'a'..'z'. */
  predicate LowercaseFives(tokens: seq<string>)
  {
    forall i :: 0 <= i < |tokens| ==> |tokens[i]| == 5 ==> AllLower(tokens[i])
  }

  /** `c - 'a'`, the bit that stands for letter c. */
  function LetterIndex(c: char): (k: nat)
    requires IsLower(c)
    ensures k < Letters
  {
    (c as int) - ('a' as int)
  }

  predicate DistinctLetters(w: string)
  {
    forall i, j :: 0 <= i < j < |w| ==> w[i] != w[j]
  }

  /** A token that `read_words` keeps. */
  predicate IsCandidate(w: string)
  {
    |w| == 5 && AllLower(w) && DistinctLetters(w)
  }

  /** The mask `read_words` builds for w: the bit of each letter, or-ed in
      from left to right. */
  function WordMask(w: string): (m: nat)
    requires AllLower(w)
    ensures m < TableSize
  {
    if w == [] then 0
    else
      var k := LetterIndex(w[|w| - 1]);
      TableSizeIsPow2();
      Pow2Monotone(k + 1, Letters);
      OrBelow(WordMask(w[..|w| - 1]), Pow2(k), Letters);
      Or(WordMask(w[..|w| - 1]), Pow2(k))
  }

  ghost function LetterSet(w: string): set<nat>
    requires AllLower(w)
  {
    set i | 0 <= i < |w| :: LetterIndex(w[i])
  }

  /** The mask of a word holds exactly the bits of its letters. */
  lemma {:induction false} WordMaskBits(w: string)
    requires AllLower(w)
    ensures Bits(WordMask(w)) == LetterSet(w)
    decreases |w|
  {
    if w != [] {
      var v := w[..|w| - 1];
      var k := LetterIndex(w[|w| - 1]);
      WordMaskBits(v);
      BitsOr(WordMask(v), Pow2(k));
      BitsPow2(k);
      assert LetterSet(w) == LetterSet(v) + {k} by {
        forall j | j in LetterSet(w) ensures j in LetterSet(v) + {k} {
          var i :| 0 <= i < |w| && j == LetterIndex(w[i]);
          if i < |w| - 1 { assert w[i] == v[i]; }
        }
        forall j | j in LetterSet(v) ensures j in LetterSet(w) {
          var i :| 0 <= i < |v| && j == LetterIndex(v[i]);
          assert v[i] == w[i];
        }
      }
    }
  }

  /** A word with distinct letters has as many letter bits as letters. */
  lemma {:induction false} LetterSetSize(w: string)
    requires AllLower(w) && DistinctLetters(w)
    ensures |LetterSet(w)| == |w|
    decreases |w|
  {
    if w != [] {
      var v := w[..|w| - 1];
      var k := LetterIndex(w[|w| - 1]);
      LetterSetSize(v);
      assert LetterSet(w) == LetterSet(v) + {k} by {
        forall j | j in LetterSet(w) ensures j in LetterSet(v) + {k} {
          var i :| 0 <= i < |w| && j == LetterIndex(w[i]);
          if i < |w| - 1 { assert w[i] == v[i]; }
        }
        forall j | j in LetterSet(v) ensures j in LetterSet(w) {
          var i :| 0 <= i < |v| && j == LetterIndex(v[i]);
          assert v[i] == w[i];
        }
      }
    }
  }

  /** Every candidate mask has exactly five letters and fits the table. */
  lemma CandidateMask(w: string)
    requires IsCandidate(w)
    ensures PopCount(WordMask(w)) == 5
    ensures 0 < WordMask(w) < TableSize
  {
    WordMaskBits(w);
    LetterSetSize(w);
    BitsEmpty(WordMask(w));
  }

  /** `bitmask & (1u << k)` is non-zero exactly when bit k is set. */
  lemma TestBit(m: nat, k: nat)
    ensures And(m, Pow2(k)) != 0 <==> k in Bits(m)
  {
    BitsAnd(m, Pow2(k));
    BitsPow2(k);
    BitsEmpty(And(m, Pow2(k)));
  }

  /** The inner loop of `read_words` over the letters of one token: the
      mask of its letters and whether no letter repeats. */
  method LetterMask(word: string) returns (bitmask: nat, valid: bool)
    requires AllLower(word)
    ensures bitmask == WordMask(word)
    ensures Bits(bitmask) == LetterSet(word)
    ensures valid <==> DistinctLetters(word)
  {
    bitmask := 0;
    valid := true;
    for n := 0 to |word|
      invariant bitmask == WordMask(word[..n])
      invariant valid <==> DistinctLetters(word[..n])
    {
      var index := LetterIndex(word[n]);
      RepeatedBit(word, n, bitmask);
      DistinctStep(word, n);
      if And(bitmask, Pow2(index)) != 0 {
        valid := false;
      }
      bitmask := Or(bitmask, Pow2(index));
      assert word[..n + 1][..n] == word[..n];
    }
    assert word[..|word|] == word;
    WordMaskBits(word);
  }

  /** Letter n of word repeats an earlier one exactly when the mask of the
      earlier letters already holds its bit. */
  lemma RepeatedBit(word: string, n: nat, bitmask: nat)
    requires AllLower(word) && n < |word| && bitmask == WordMask(word[..n])
    ensures And(bitmask, Pow2(LetterIndex(word[n]))) != 0 <==>
      exists i :: 0 <= i < n && word[i] == word[n]
  {
    var index := LetterIndex(word[n]);
    WordMaskBits(word[..n]);
    TestBit(bitmask, index);
    if exists i :: 0 <= i < n && word[i] == word[n] {
      var i :| 0 <= i < n && word[i] == word[n];
      assert word[..n][i] == word[i];
    }
    if index in LetterSet(word[..n]) {
      var i :| 0 <= i < n && index == LetterIndex(word[..n][i]);
      assert word[..n][i] == word[i];
    }
  }

  /** One more letter keeps the letters distinct exactly when it repeats
      none of the earlier ones. */
  lemma DistinctStep(word: string, n: nat)
    requires n < |word|
    ensures DistinctLetters(word[..n + 1]) <==>
      DistinctLetters(word[..n]) && !exists i :: 0 <= i < n && word[i] == word[n]
  {
    var u := word[..n + 1];
    if DistinctLetters(word[..n]) && !exists i :: 0 <= i < n && word[i] == word[n] {
      forall i, j | 0 <= i < j < n + 1 ensures u[i] != u[j] {
        if j < n { assert word[..n][i] != word[..n][j]; }
      }
    }
    if exists i :: 0 <= i < n && word[i] == word[n] {
      var i :| 0 <= i < n && word[i] == word[n];
      assert u[i] == u[n];
    }
    if !DistinctLetters(word[..n]) {
      var i, j :| 0 <= i < j < n && word[..n][i] == word[..n][j];
      assert u[i] == u[j];
    }
  }

  // ---------------------------------------------------------------------
  // The `data` vector of (mask, spelling) pairs.

  datatype Entry = Entry(mask: nat, spelling: string)

  /** The pairs `read_words` collects, in token order. */
  function Candidates(tokens: seq<string>): (d: seq<Entry>)
    requires LowercaseFives(tokens)
    ensures forall e :: e in d <==>
      e.spelling in tokens && IsCandidate(e.spelling) && e.mask == WordMask(e.spelling)
  {
    if tokens == [] then []
    else
      var w := tokens[|tokens| - 1];
      var rest := Candidates(tokens[..|tokens| - 1]);
      assert tokens == tokens[..|tokens| - 1] + [w];
      if IsCandidate(w) then rest + [Entry(WordMask(w), w)] else rest
  }

  /** The spellings of the tokens `read_words` keeps, in token order. */
  function CandidateTokens(tokens: seq<string>): (c: seq<string>)
    ensures forall s :: s in c <==> s in tokens && IsCandidate(s)
  {
    if tokens == [] then []
    else
      var w := tokens[|tokens| - 1];
      assert tokens == tokens[..|tokens| - 1] + [w];
      CandidateTokens(tokens[..|tokens| - 1]) + (if IsCandidate(w) then [w] else [])
  }

  /** The spellings of a list of pairs, in order. */
  function Spellings(d: seq<Entry>): (s: seq<string>)
    ensures |s| == |d|
  {
    if d == [] then [] else [d[0].spelling] + Spellings(d[1..])
  }

  lemma {:induction false} SpellingsConcat(a: seq<Entry>, b: seq<Entry>)
    ensures Spellings(a + b) == Spellings(a) + Spellings(b)
    decreases |a|
  {
    if a != [] {
      assert (a + b)[1..] == a[1..] + b;
      SpellingsConcat(a[1..], b);
      assert Spellings(a + b) == [a[0].spelling] + Spellings(a[1..] + b);
      assert Spellings(a) == [a[0].spelling] + Spellings(a[1..]);
    } else {
      assert a + b == b;
    }
  }

  /** The pairs' spellings are exactly the kept tokens, in order. */
  lemma {:induction false} CandidateSpellings(tokens: seq<string>)
    requires LowercaseFives(tokens)
    ensures Spellings(Candidates(tokens)) == CandidateTokens(tokens)
    decreases |tokens|
  {
    if tokens != [] {
      var w := tokens[|tokens| - 1];
      CandidateSpellings(tokens[..|tokens| - 1]);
      if IsCandidate(w) {
        SpellingsConcat(Candidates(tokens[..|tokens| - 1]), [Entry(WordMask(w), w)]);
      }
    }
  }

  lemma SplitAt<T>(d: seq<T>, i: nat)
    requires i < |d|
    ensures d == d[..i] + [d[i]] + d[i + 1..]
  {
  }

  lemma SpellingsRemove(d: seq<Entry>, i: nat)
    requires i < |d|
    ensures multiset(Spellings(d)) == multiset(Spellings(d[..i] + d[i + 1..])) + multiset{d[i].spelling}
  {
    var left, right, x := d[..i], d[i + 1..], d[i].spelling;
    SplitAt(d, i);
    var sl, sr := Spellings(left), Spellings(right);
    assert Spellings([d[i]]) == [x] by {
      assert [d[i]][1..] == [];
    }
    SpellingsConcat(left, [d[i]]);
    SpellingsConcat(left + [d[i]], right);
    assert Spellings(d) == sl + [x] + sr;
    SpellingsConcat(left, right);
    assert Spellings(left + right) == sl + sr;
    assert multiset(sl + [x] + sr) == multiset(sl) + multiset{x} + multiset(sr);
    assert multiset(sl + sr) == multiset(sl) + multiset(sr);
  }

  /** Rearranging the pairs rearranges their spellings the same way. */
  lemma {:induction false} SpellingsPermutation(d1: seq<Entry>, d2: seq<Entry>)
    requires multiset(d1) == multiset(d2)
    ensures multiset(Spellings(d1)) == multiset(Spellings(d2))
    decreases |d1|
  {
    if d1 == [] {
      assert |d2| == |multiset(d2)| == 0;
    } else {
      var e := d1[0];
      assert e in multiset(d2);
      var i :| 0 <= i < |d2| && d2[i] == e;
      var d1', d2' := d1[..0] + d1[1..], d2[..i] + d2[i + 1..];
      assert d1' == d1[1..];
      RemoveMultiset(d1, 0);
      RemoveMultiset(d2, i);
      SpellingsPermutation(d1', d2');
      SpellingsRemove(d2, i);
      SpellingsRemove(d1, 0);
    }
  }

  lemma RemoveMultiset<T>(d: seq<T>, i: nat)
    requires i < |d|
    ensures multiset(d[..i] + d[i + 1..]) == multiset(d) - multiset{d[i]}
  {
    SplitAt(d, i);
  }

  // ---------------------------------------------------------------------
  // The order `std::sort` puts the pairs in: by mask, then by spelling.

  /** `std::string` ordering: lexicographic by character. */
  predicate StrLe(a: string, b: string)
    decreases |a|
  {
    |a| == 0 || (|b| > 0 && (a[0] < b[0] || (a[0] == b[0] && StrLe(a[1..], b[1..]))))
  }

  lemma {:induction false} StrLeReflexive(a: string)
    ensures StrLe(a, a)
    decreases |a|
  {
    if |a| > 0 { StrLeReflexive(a[1..]); }
  }

  lemma {:induction false} StrLeTotal(a: string, b: string)
    ensures StrLe(a, b) || StrLe(b, a)
    decreases |a|
  {
    if |a| > 0 && |b| > 0 && a[0] == b[0] { StrLeTotal(a[1..], b[1..]); }
  }

  lemma {:induction false} StrLeTransitive(a: string, b: string, c: string)
    requires StrLe(a, b) && StrLe(b, c)
    ensures StrLe(a, c)
    decreases |a|
  {
    if |a| > 0 && a[0] == b[0] && b[0] == c[0] { StrLeTransitive(a[1..], b[1..], c[1..]); }
  }

  lemma {:induction false} StrLeAntisymmetric(a: string, b: string)
    requires StrLe(a, b) && StrLe(b, a)
    ensures a == b
    decreases |a|
  {
    if |a| > 0 {
      StrLeAntisymmetric(a[1..], b[1..]);
      assert a == [a[0]] + a[1..] && b == [b[0]] + b[1..];
    }
  }

  /** `std::pair` ordering of (mask, spelling). */
  predicate EntryLe(a: Entry, b: Entry)
  {
    a.mask < b.mask || (a.mask == b.mask && StrLe(a.spelling, b.spelling))
  }

  predicate Sorted(d: seq<Entry>)
  {
    forall i, j :: 0 <= i < j < |d| ==> EntryLe(d[i], d[j])
  }

  /** Insert e into a list of pairs. */
  function Insert(e: Entry, d: seq<Entry>): (r: seq<Entry>)
    ensures multiset(r) == multiset(d) + multiset{e}
  {
    if d == [] then [e]
    else if EntryLe(e, d[0]) then [e] + d
    else
      assert d == [d[0]] + d[1..];
      [d[0]] + Insert(e, d[1..])
  }

  /** The order the sort leaves `data` in. */
  function SortEntries(d: seq<Entry>): (r: seq<Entry>)
    ensures multiset(r) == multiset(d)
  {
    if d == [] then []
    else
      assert d == [d[0]] + d[1..];
      Insert(d[0], SortEntries(d[1..]))
  }

  lemma EntryLeTransitive(a: Entry, b: Entry, c: Entry)
    requires EntryLe(a, b) && EntryLe(b, c)
    ensures EntryLe(a, c)
  {
    if a.mask == b.mask == c.mask {
      StrLeTransitive(a.spelling, b.spelling, c.spelling);
    }
  }

  lemma EntryLeTotal(a: Entry, b: Entry)
    ensures EntryLe(a, b) || EntryLe(b, a)
  {
    StrLeTotal(a.spelling, b.spelling);
  }

  /** A lower bound of e and of d bounds the list with e inserted. */
  lemma InsertBounded(x: Entry, e: Entry, d: seq<Entry>)
    requires EntryLe(x, e) && forall j :: 0 <= j < |d| ==> EntryLe(x, d[j])
    ensures forall j :: 0 <= j < |Insert(e, d)| ==> EntryLe(x, Insert(e, d)[j])
  {
    var r := Insert(e, d);
    forall j | 0 <= j < |r| ensures EntryLe(x, r[j]) {
      assert r[j] in multiset(r);
      if r[j] != e {
        assert r[j] in multiset(d);
        var k :| 0 <= k < |d| && d[k] == r[j];
      }
    }
  }

  /** A sorted list below its new head stays sorted. */
  lemma ConsSorted(x: Entry, d: seq<Entry>)
    requires Sorted(d) && forall j :: 0 <= j < |d| ==> EntryLe(x, d[j])
    ensures Sorted([x] + d)
  {
    var r := [x] + d;
    forall i, j | 0 <= i < j < |r| ensures EntryLe(r[i], r[j]) {
      if i > 0 {
        assert r[i] == d[i - 1] && r[j] == d[j - 1];
      }
    }
  }

  lemma {:induction false} InsertSorted(e: Entry, d: seq<Entry>)
    requires Sorted(d)
    ensures Sorted(Insert(e, d))
    decreases |d|
  {
    if d != [] {
      if EntryLe(e, d[0]) {
        forall j | 0 <= j < |d| ensures EntryLe(e, d[j]) {
          if j > 0 {
            EntryLeTransitive(e, d[0], d[j]);
          }
        }
        ConsSorted(e, d);
      } else {
        EntryLeTotal(e, d[0]);
        InsertSorted(e, d[1..]);
        InsertBounded(d[0], e, d[1..]);
        ConsSorted(d[0], Insert(e, d[1..]));
      }
    }
  }

  /** The sort yields the sorted permutation of its input. */
  lemma {:induction false} SortEntriesSorted(d: seq<Entry>)
    ensures Sorted(SortEntries(d))
    decreases |d|
  {
    if d != [] {
      SortEntriesSorted(d[1..]);
      InsertSorted(d[0], SortEntries(d[1..]));
    }
  }

  /** In sorted pairs the first pair of a run of equal masks has the least
      spelling of that mask. */
  lemma GroupHeadLeast(d: seq<Entry>, j: nat, l: nat)
    requires Sorted(d) && j < |d| && l < |d|
    requires j == 0 || d[j - 1].mask != d[j].mask
    requires d[l].mask == d[j].mask
    ensures StrLe(d[j].spelling, d[l].spelling)
  {
    if l == j {
      StrLeReflexive(d[j].spelling);
    }
  }

  // ---------------------------------------------------------------------
  // The steps of `read_words`.

  /** Concatenation of the spelling groups. */
  function Flatten(words: seq<seq<string>>): (f: seq<string>)
  {
    if words == [] then [] else Flatten(words[..|words| - 1]) + words[|words| - 1]
  }

  /** The token loop of `read_words`: the (mask, spelling) pair of every
      kept token, in order. */
  method CollectCandidates(tokens: seq<string>) returns (data: seq<Entry>)
    requires LowercaseFives(tokens)
    ensures data == Candidates(tokens)
  {
    data := [];
    for i := 0 to |tokens|
      invariant data == Candidates(tokens[..i])
    {
      var word := tokens[i];
      assert tokens[..i + 1][..i] == tokens[..i];
      if |word| != 5 {
        continue;
      }
      var bitmask, valid := LetterMask(word);
      if !valid {
        continue;
      }
      data := data + [Entry(bitmask, word)];
    }
    assert tokens[..|tokens|] == tokens;
  }

  lemma FlattenSnoc(words: seq<seq<string>>, g: seq<string>)
    ensures Flatten(words + [g]) == Flatten(words) + g
  {
    assert (words + [g])[..|words|] == words;
  }

  /** The state of the grouping loop after i sorted pairs. */
  ghost predicate Grouped(d: seq<Entry>, dedupe: bool, i: nat, bitmasks: seq<nat>, words: seq<seq<string>>)
  {
    i <= |d| &&
    |words| == |bitmasks| &&
    (forall k :: 0 <= k < |words| ==> |words[k]| > 0) &&
    (i == 0 ==> bitmasks == []) &&
    (i > 0 ==> |bitmasks| > 0 && bitmasks[|bitmasks| - 1] == d[i - 1].mask) &&
    ValidMasks(bitmasks) &&
    (forall k, s :: 0 <= k < |words| && s in words[k] ==> Entry(bitmasks[k], s) in d) &&
    (forall j :: 0 <= j < i ==> d[j].mask in bitmasks) &&
    (!dedupe ==> Flatten(words) == Spellings(d[..i])) &&
    (dedupe ==> Heads(d, i, bitmasks, words))
  }

  /** With deduplication: every group is the first pair of its mask among
      the first i pairs. */
  ghost predicate Heads(d: seq<Entry>, i: nat, bitmasks: seq<nat>, words: seq<seq<string>>)
    requires i <= |d| && |words| == |bitmasks|
  {
    forall k :: 0 <= k < |words| ==> (|words[k]| == 1 &&
      exists j :: 0 <= j < i && d[j] == Entry(bitmasks[k], words[k][0]) && (j == 0 || d[j - 1].mask != d[j].mask))
  }

  /** A pair with a new mask extends the ascending masks. */
  lemma NewMaskAscends(d: seq<Entry>, i: nat, bitmasks: seq<nat>)
    requires Sorted(d) && forall j :: 0 <= j < |d| ==> 0 < d[j].mask < TableSize
    requires i < |d| && ValidMasks(bitmasks)
    requires i == 0 ==> bitmasks == []
    requires i > 0 ==> |bitmasks| > 0 && bitmasks[|bitmasks| - 1] == d[i - 1].mask
    requires i == 0 || d[i].mask != d[i - 1].mask
    ensures ValidMasks(bitmasks + [d[i].mask])
  {
    if i > 0 {
      assert EntryLe(d[i - 1], d[i]);
    }
  }

  /** A pair with a new mask heads the group it opens. */
  lemma NewHead(d: seq<Entry>, i: nat, bitmasks: seq<nat>, words: seq<seq<string>>)
    requires i < |d| && |words| == |bitmasks| && Heads(d, i, bitmasks, words)
    requires i == 0 || d[i].mask != d[i - 1].mask
    ensures Heads(d, i + 1, bitmasks + [d[i].mask], words + [[d[i].spelling]])
  {
    var bitmasks', words' := bitmasks + [d[i].mask], words + [[d[i].spelling]];
    forall k | 0 <= k < |words'|
      ensures |words'[k]| == 1 &&
        exists j :: 0 <= j < i + 1 && d[j] == Entry(bitmasks'[k], words'[k][0]) && (j == 0 || d[j - 1].mask != d[j].mask)
    {
      if k == |words| {
        assert d[i] == Entry(bitmasks'[k], words'[k][0]);
      } else {
        assert words'[k] == words[k] && bitmasks'[k] == bitmasks[k];
      }
    }
  }

  /** Pair i starts a new group. */
  lemma GroupNew(d: seq<Entry>, dedupe: bool, i: nat, bitmasks: seq<nat>, words: seq<seq<string>>)
    requires Sorted(d) && forall j :: 0 <= j < |d| ==> 0 < d[j].mask < TableSize
    requires Grouped(d, dedupe, i, bitmasks, words) && i < |d|
    requires i == 0 || d[i].mask != d[i - 1].mask
    ensures Grouped(d, dedupe, i + 1, bitmasks + [d[i].mask], words + [[d[i].spelling]])
  {
    NewMaskAscends(d, i, bitmasks);
    NewMembers(d, i, bitmasks, words);
    if !dedupe {
      NewFlatten(d, i, words);
    } else {
      NewHead(d, i, bitmasks, words);
    }
  }

  /** A new group keeps every spelling a pair of d and every mask seen so
      far listed. */
  lemma NewMembers(d: seq<Entry>, i: nat, bitmasks: seq<nat>, words: seq<seq<string>>)
    requires i < |d| && |words| == |bitmasks|
    requires forall k, s :: 0 <= k < |words| && s in words[k] ==> Entry(bitmasks[k], s) in d
    requires forall j :: 0 <= j < i ==> d[j].mask in bitmasks
    ensures var bitmasks', words' := bitmasks + [d[i].mask], words + [[d[i].spelling]];
      (forall k, s :: 0 <= k < |words'| && s in words'[k] ==> Entry(bitmasks'[k], s) in d) &&
      (forall j :: 0 <= j < i + 1 ==> d[j].mask in bitmasks')
  {
    var bitmasks', words' := bitmasks + [d[i].mask], words + [[d[i].spelling]];
    forall k, s | 0 <= k < |words'| && s in words'[k] ensures Entry(bitmasks'[k], s) in d {
      if k < |words| {
        assert words'[k] == words[k] && bitmasks'[k] == bitmasks[k];
      }
    }
  }

  /** A new group of one spelling extends the flattened spellings by it. */
  lemma NewFlatten(d: seq<Entry>, i: nat, words: seq<seq<string>>)
    requires i < |d| && Flatten(words) == Spellings(d[..i])
    ensures Flatten(words + [[d[i].spelling]]) == Spellings(d[..i + 1])
  {
    assert d[..i + 1] == d[..i] + [d[i]];
    SpellingsConcat(d[..i], [d[i]]);
    FlattenSnoc(words, [d[i].spelling]);
  }

  /** Pair i has the mask of the last group. */
  lemma GroupSame(d: seq<Entry>, dedupe: bool, i: nat, bitmasks: seq<nat>, words: seq<seq<string>>)
    requires Grouped(d, dedupe, i, bitmasks, words) && 0 < i < |d|
    requires d[i].mask == d[i - 1].mask
    ensures !dedupe ==> Grouped(d, dedupe, i + 1, bitmasks,
      words[..|words| - 1] + [words[|words| - 1] + [d[i].spelling]])
    ensures dedupe ==> Grouped(d, dedupe, i + 1, bitmasks, words)
  {
    if !dedupe {
      var n := |words| - 1;
      var words' := words[..n] + [words[n] + [d[i].spelling]];
      assert words[..n] + [words[n]] == words;
      FlattenSnoc(words[..n], words[n]);
      FlattenSnoc(words[..n], words[n] + [d[i].spelling]);
      assert d[..i + 1] == d[..i] + [d[i]];
      SpellingsConcat(d[..i], [d[i]]);
      forall k, s | 0 <= k < |words'| && s in words'[k] ensures Entry(bitmasks[k], s) in d {
        if k == n && s == d[i].spelling {
          assert d[i] == Entry(bitmasks[k], s);
        } else {
          assert s in words[k];
        }
      }
    }
  }

  /** With deduplication each group keeps the least spelling of its mask. */
  lemma DedupeLeast(d: seq<Entry>, bitmasks: seq<nat>, words: seq<seq<string>>)
    requires Sorted(d) && Grouped(d, true, |d|, bitmasks, words)
    ensures forall k :: 0 <= k < |words| ==> (|words[k]| == 1 &&
      forall e :: e in d && e.mask == bitmasks[k] ==> StrLe(words[k][0], e.spelling))
  {
    forall k | 0 <= k < |words|
      ensures forall e :: e in d && e.mask == bitmasks[k] ==> StrLe(words[k][0], e.spelling)
    {
      var j :| 0 <= j < |d| && d[j] == Entry(bitmasks[k], words[k][0]) && (j == 0 || d[j - 1].mask != d[j].mask);
      forall e | e in d && e.mask == bitmasks[k] ensures StrLe(words[k][0], e.spelling) {
        var l :| 0 <= l < |d| && d[l] == e;
        GroupHeadLeast(d, j, l);
      }
    }
  }

  /** The grouping loop of `read_words` over sorted pairs: a new group for
      each new mask, and further spellings of the same mask appended to the
      last group unless anagrams are deduplicated. */
  method GroupEntries(d: seq<Entry>, dedupe: bool) returns (bitmasks: seq<nat>, words: seq<seq<string>>)
    requires Sorted(d)
    requires forall i :: 0 <= i < |d| ==> 0 < d[i].mask < TableSize
    ensures ValidMasks(bitmasks)
    ensures |words| == |bitmasks|
    ensures forall k :: 0 <= k < |words| ==> |words[k]| > 0
    ensures forall k, s :: 0 <= k < |words| && s in words[k] ==> Entry(bitmasks[k], s) in d
    ensures forall e :: e in d ==> e.mask in bitmasks
    ensures !dedupe ==> Flatten(words) == Spellings(d)
    ensures dedupe ==> forall k :: 0 <= k < |words| ==> (|words[k]| == 1 &&
      forall e :: e in d && e.mask == bitmasks[k] ==> StrLe(words[k][0], e.spelling))
  {
    bitmasks, words := [], [];
    for i := 0 to |d|
      invariant Grouped(d, dedupe, i, bitmasks, words)
    {
      if i > 0 && d[i].mask == d[i - 1].mask {
        GroupSame(d, dedupe, i, bitmasks, words);
        if !dedupe {
          words := words[..|words| - 1] + [words[|words| - 1] + [d[i].spelling]];
        }
      } else {
        GroupNew(d, dedupe, i, bitmasks, words);
        bitmasks := bitmasks + [d[i].mask];
        words := words + [[d[i].spelling]];
      }
    }
    assert d[..|d|] == d;
    if dedupe {
      DedupeLeast(d, bitmasks, words);
    }
  }

  /** The pairs after the sort: in order, valid masks, and exactly the
      kept tokens with their masks. */
  lemma SortedCandidates(tokens: seq<string>)
    requires LowercaseFives(tokens)
    ensures var d := SortEntries(Candidates(tokens));
      Sorted(d) &&
      (forall i :: 0 <= i < |d| ==> 0 < d[i].mask < TableSize) &&
      (forall e :: e in d <==> e.spelling in tokens && IsCandidate(e.spelling) && e.mask == WordMask(e.spelling))
  {
    var c := Candidates(tokens);
    var d := SortEntries(c);
    SortEntriesSorted(c);
    forall e ensures e in d <==> e in c {
      assert e in d <==> e in multiset(d);
      assert e in c <==> e in multiset(c);
    }
    forall i | 0 <= i < |d| ensures 0 < d[i].mask < TableSize {
      assert d[i] in c;
      CandidateMask(d[i].spelling);
    }
  }

  /** What `read_words` returns: the ascending distinct masks of the kept
      tokens, each with a non-empty group of kept tokens of that mask. */
  ghost predicate WordList(tokens: seq<string>, bitmasks: seq<nat>, words: seq<seq<string>>)
  {
    ValidMasks(bitmasks) && |words| == |bitmasks| &&
    (forall k :: 0 <= k < |words| ==> |words[k]| > 0) &&
    (forall k, s :: 0 <= k < |words| && s in words[k] ==>
      s in tokens && IsCandidate(s) && WordMask(s) == bitmasks[k]) &&
    (forall s :: s in tokens && IsCandidate(s) ==> WordMask(s) in bitmasks)
  }

  /** `read_words` on an already split word list. */
  method ReadWords(tokens: seq<string>, dedupe: bool) returns (bitmasks: seq<nat>, words: seq<seq<string>>)
    requires LowercaseFives(tokens)
    ensures WordList(tokens, bitmasks, words)
    ensures !dedupe ==> multiset(Flatten(words)) == multiset(CandidateTokens(tokens))
    ensures !dedupe ==> Flatten(words) == Spellings(SortEntries(Candidates(tokens)))
    ensures dedupe ==> forall k :: 0 <= k < |words| ==> (|words[k]| == 1 &&
      forall s :: s in tokens && IsCandidate(s) && WordMask(s) == bitmasks[k] ==> StrLe(words[k][0], s))
  {
    var data := CollectCandidates(tokens);
    data := SortEntries(data);
    SortedCandidates(tokens);
    bitmasks, words := GroupEntries(data, dedupe);
    forall s | s in tokens && IsCandidate(s) ensures WordMask(s) in bitmasks {
      assert Entry(WordMask(s), s) in data;
    }
    if !dedupe {
      SpellingsPermutation(data, Candidates(tokens));
      CandidateSpellings(tokens);
    } else {
      forall k, s | 0 <= k < |words| && s in tokens && IsCandidate(s) && WordMask(s) == bitmasks[k]
        ensures StrLe(words[k][0], s)
      {
        assert Entry(WordMask(s), s) in data;
      }
    }
  }
}

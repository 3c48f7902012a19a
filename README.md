# wordle-finder in Dafny

A model of `wordle-finder.cpp`. The program finds every set of five
five-letter words that together use 25 distinct letters of the alphabet.

It works in four stages:

1. `read_words` keeps the five-letter words whose letters are all
   different. It turns each into a 26-bit letter mask, sorts the
   (mask, word) pairs and groups anagrams under one mask. With
   `--dedupe-anagrams` it keeps one spelling per mask.
2. The `inner_loop_bounds` sweep records, for every mask `i`, the first
   candidate whose leading letter lies above the leading letter of `i`.
3. A dynamic program over all 2^26 masks fills `has_solution` and builds a
   log of `(new_mask, word, prev)` records. The `result_ptrs` head table
   threads those records into one linked list per mask.
4. The driver searches each of the 26 masks "alphabet minus one letter". The
   recursive `search` follows the linked lists and prints one line per
   solution.

The model follows the program's structure:

| file | module | models |
|---|---|---|
| `masks.dfy` | `Masks` | letter masks as natural numbers, with bitwise or, and, and-not, the leading bit and the set of bits |
| `cover.dfy` | `Cover` | what a solution is: covers, reachable masks and decompositions (the order `search` prints in) |
| `ingest.dfy` | `Ingest` | `read_words` |
| `bounds.dfy` | `Bounds` | `inner_loop_bounds` |
| `index.dfy` | `SolutionIndex` | the dynamic program, `results` and `result_ptrs` |
| `search.dfy` | `Enumeration` | `search`, as the class `Enumerator` |
| `finder.dfy` | `Finder` | `main` after argument handling |

Masks are unbounded naturals. Every mask of the program fits in 26 bits
(`TableSize` is 2^26), so nothing wraps around. `__builtin_clz(x)` only
appears in comparisons, so it is modelled as the position of the highest
set bit (`Msb`), with the comparison reversed. The stack of string
pointers is kept twice. `stack` holds the spellings the pointers point at.
`path` holds what each pointer identifies: a `Pick(word, spelling)`, meaning
entry `spelling` of `words[word]`. Each line printed to `std::cout` becomes
one element of the output sequence `Enumerator.output`. Beside it,
`emitted` records each line as its list of picks.

Three points of the code are easy to misread:

- The dynamic program extends mask `i` only with words whose leading letter
  lies strictly above that of `i` (`inner_loop_bounds` stops at the first
  `clz(word) < clz(i)`). A word disjoint from `i` never shares its leading
  letter, so no extension is lost.
- The list for mask `m` holds exactly the words `w` that lie inside `m`,
  carry the leading letter of `m`, and leave a reachable remainder, because
  a record for `m` is only made from a smaller mask below that letter. So
  every solution is printed once, with its words in decreasing order of
  leading letter.
- With `--dedupe-anagrams` the spelling kept for a mask is the
  lexicographically smallest one, because `std::sort` orders the
  (mask, word) pairs by spelling within a mask, whatever the order of the
  input.

## Model

| member | source | states |
|---|---|---|
| Masks.TableSizeIsPow2 | wordle-finder.cpp:130 | the table size `1u << 26` is 2 to the power of the number of letters |
| Masks.HasOr | wordle-finder.cpp:55 | bit k of a or-ed with b is set iff it is set in a or in b |
| Masks.BitsOr | wordle-finder.cpp:154 | the letters of `i` or-ed with a word (`new_mask`) are the letters of both |
| Masks.HasAnd | wordle-finder.cpp:151 | bit k of `a & b` is set iff it is set in both |
| Masks.BitsAnd | wordle-finder.cpp:53 | the letters of `a & b` are the common letters |
| Masks.HasAndNot | wordle-finder.cpp:100 | bit k of `a & ~b` is set iff it is set in a and not in b |
| Masks.BitsAndNot | wordle-finder.cpp:167 | the letters of `a & ~b` are those of a without those of b |
| Masks.HasPow2 | wordle-finder.cpp:55 | `1u << k` has bit k and no other |
| Masks.BitsPow2 | wordle-finder.cpp:167 | the letters of `1u << k` are just k |
| Masks.BitsLowMask | wordle-finder.cpp:167 | `(1u << n) - 1` holds exactly the bits below n |
| Masks.MsbIsMax | wordle-finder.cpp:136 | `Msb`, which stands for `31 - __builtin_clz`, is the highest set bit of a non-empty mask, and -1 for the empty one |
| Masks.HasMsb | wordle-finder.cpp:136 | the highest bit of a non-empty mask is set |
| Ingest.LetterIndex | wordle-finder.cpp:52 | `c - 'a'` of a lower-case letter is a bit below 26 |
| Ingest.WordMask | wordle-finder.cpp:49-56 | a word's mask fits the table (its bits: WordMaskBits) |
| Ingest.StrLeReflexive | wordle-finder.cpp:65 | the string order of the pair sort is reflexive |
| Ingest.EntryLeTotal | wordle-finder.cpp:65 | the `std::pair` order, mask first and then spelling, is total |
| Ingest.EntryLeTransitive | wordle-finder.cpp:65 | the `std::pair` order is transitive |
| Ingest.LetterMask | wordle-finder.cpp:49-56 | the mask loop computes the word's letter mask, whose bits are exactly its letters; `valid` holds iff no letter repeats |
| Ingest.WordMaskBits | wordle-finder.cpp:51-56 | the bits of a word's mask are the set of its letter indices |
| Ingest.LetterSetSize | wordle-finder.cpp:51-56 | a word with no repeated letter has as many letters in its set as characters |
| Ingest.CandidateMask | wordle-finder.cpp:47-59 | a kept word has a mask of exactly five letters, non-zero and inside the table |
| Ingest.TestBit | wordle-finder.cpp:53 | `bitmask & (1u << index)` is non-zero iff the letter is already in the mask |
| Ingest.RepeatedBit | wordle-finder.cpp:53-55 | after the first n letters, the test bit is set iff letter n occurred before |
| Ingest.DistinctStep | wordle-finder.cpp:50-54 | the first n+1 letters are distinct iff the first n are and letter n is new |
| Ingest.Candidates | wordle-finder.cpp:46-63 | the collected pairs are exactly (mask, word) for the five-letter, repeat-free tokens |
| Ingest.CollectCandidates | wordle-finder.cpp:46-63 | the read loop builds that list of pairs, in input order |
| Ingest.CandidateTokens | wordle-finder.cpp:46-59 | the kept tokens are exactly the five-letter repeat-free ones |
| Ingest.CandidateSpellings | wordle-finder.cpp:46-63 | the spellings of the collected pairs are the kept tokens, in order |
| Ingest.SpellingsPermutation | wordle-finder.cpp:65 | reordering the pairs only reorders their spellings |
| Ingest.StrLeTotal | wordle-finder.cpp:65 | string order, the tie-breaker of the pair sort, is total |
| Ingest.StrLeTransitive | wordle-finder.cpp:65 | string order is transitive |
| Ingest.StrLeAntisymmetric | wordle-finder.cpp:65 | string order is antisymmetric |
| Ingest.Insert | wordle-finder.cpp:65 | insertion adds exactly one pair to the multiset |
| Ingest.SortEntries | wordle-finder.cpp:65 | `std::sort` yields a permutation of the pairs |
| Ingest.InsertSorted | wordle-finder.cpp:65 | inserting into a sorted list keeps it sorted |
| Ingest.SortEntriesSorted | wordle-finder.cpp:65 | `std::sort` yields a list ordered by mask, then spelling |
| Ingest.GroupHeadLeast | wordle-finder.cpp:65-73 | the first pair of a mask's run has the smallest spelling of that mask |
| Ingest.GroupNew | wordle-finder.cpp:70-73 | a new mask opens a new group and keeps the grouping invariant |
| Ingest.GroupSame | wordle-finder.cpp:67-69 | a repeated mask appends its spelling to the last group, or drops it when deduping, and keeps the invariant |
| Ingest.DedupeLeast | wordle-finder.cpp:67-69 | when deduping, each group holds one spelling, the least of its mask |
| Ingest.GroupEntries | wordle-finder.cpp:66-74 | grouping gives strictly ascending masks with non-empty groups; every spelling sits under its own mask and every mask is present; without dedupe the groups concatenate to the sorted spellings |
| Ingest.SortedCandidates | wordle-finder.cpp:61-65 | the sorted pairs are ordered, their masks are non-zero table indices, and they are exactly the candidates |
| Ingest.ReadWords | wordle-finder.cpp:36-75 | `read_words` returns ascending masks with non-empty groups of spellings, each the spelling of a kept token under its own mask; without dedupe the groups hold exactly the kept tokens, with their multiplicity, in sorted order; with dedupe each group is its mask's smallest spelling |
| Bounds.InnerLoopBounds | wordle-finder.cpp:133-139 | entry i splits the sorted candidates into those whose leading letter is at most that of i and those above it |
| Bounds.SweepStop | wordle-finder.cpp:135-138 | where the inner `while` stops is that split point |
| Bounds.BoundOfZero | wordle-finder.cpp:133 | entry 0 keeps its initial 0: every candidate lies above the empty mask |
| Bounds.BoundsMonotone | wordle-finder.cpp:134-139 | the bounds never decrease as i grows, which is why one sweep index suffices |
| Cover.UnionBits | wordle-finder.cpp:154 | the letters of a union of masks are the letters of its parts |
| Cover.Remainder | wordle-finder.cpp:100 | removing a mask's top word leaves a smaller, disjoint remainder with a lower leading letter that rebuilds the mask |
| Cover.Extension | wordle-finder.cpp:151-154 | adding a disjoint word above the leading letter makes it the top word of the new mask |
| Cover.ReachableStep | wordle-finder.cpp:128-131 | a non-empty mask is reachable iff one of its top words leaves a reachable remainder |
| Cover.CoverRemove | wordle-finder.cpp:100 | removing one word of a cover leaves a cover of the rest of the mask |
| Cover.CoverPrepend | wordle-finder.cpp:154 | adding a word to a cover of the remainder covers the whole mask |
| Cover.DecompositionOfZero | wordle-finder.cpp:84-91 | the empty mask has exactly one decomposition, the empty line |
| Cover.DecompositionStep | wordle-finder.cpp:94-104 | a line decomposes a non-empty mask iff its head is a top word with a valid spelling and its tail decomposes the remainder |
| Cover.CoverSize | wordle-finder.cpp:166-170 | a cover by five-letter words has five letters per word |
| Cover.CoverOrdered | wordle-finder.cpp:94-104 | every cover can be written as a decomposition using the same words |
| Cover.DescendingUnique | wordle-finder.cpp:94-104 | two lines in decreasing leading-letter order with the same picks are equal, so each set of picks is printed in one order only |
| SolutionIndex.BuildIndex | wordle-finder.cpp:128-161 | `has_solution[m]` holds iff m is a union of disjoint candidates; the records are sound and complete, not repeated, and linked newest-first from `result_ptrs` |
| SolutionIndex.VisitMask | wordle-finder.cpp:144-160 | one outer iteration moves the loop invariant from mask i to i + 1 |
| SolutionIndex.ExtendMask | wordle-finder.cpp:148-160 | the inner loop over candidates from the top down to the bound logs every disjoint extension of a reachable i |
| SolutionIndex.TableEntry | wordle-finder.cpp:145 | when mask i is reached, `has_solution[i]` already says whether it is reachable |
| SolutionIndex.TableAppend | wordle-finder.cpp:155-159 | setting `has_solution[new_mask]` alongside the new record keeps the table matching the log |
| SolutionIndex.SkipSource | wordle-finder.cpp:145-146 | skipping an unreachable mask keeps the invariant |
| SolutionIndex.SkipWord | wordle-finder.cpp:151-152 | skipping an overlapping word keeps the invariant |
| SolutionIndex.AppendStep | wordle-finder.cpp:154-159 | appending `(new_mask, j, result_ptrs[new_mask])` and moving the head keeps the invariant |
| SolutionIndex.AppendLinked | wordle-finder.cpp:156-159 | pushing a record whose prev is the old head and pointing the head at it keeps every list linked |
| SolutionIndex.AppendNoRepeat | wordle-finder.cpp:157-158 | the new (mask, word) pair was not logged before |
| SolutionIndex.AppendComplete | wordle-finder.cpp:150-159 | after the append, every extension handled so far has its record |
| SolutionIndex.FinishSource | wordle-finder.cpp:150 | stopping at the bound covers all candidates that can extend i |
| SolutionIndex.Finish | wordle-finder.cpp:144-161 | after all masks, reachability and the index are exact |
| Enumeration.ReadyFromIndex | wordle-finder.cpp:141-161 | the built index gives well-formed search tables |
| Enumeration.Spell | wordle-finder.cpp:85-90 | a printed line has one spelling per pick |
| Enumeration.SpellAll | wordle-finder.cpp:84-91 | the output has one line per emitted solution |
| Enumeration.RemoveSmaller | wordle-finder.cpp:100 | `mask & ~bitmasks[e]` is strictly smaller than mask, so the recursion ends |
| Enumeration.OutCount | wordle-finder.cpp:77-105 | from stack pre, a search of m prints x once if x is pre followed by a decomposition of m, and never otherwise |
| Enumeration.ListedIff | wordle-finder.cpp:94-97 | the list of mask m names word w iff w is a top word of m with a reachable remainder |
| Enumeration.ChainCount | wordle-finder.cpp:94-104 | following the list from record r prints x once iff its next word is listed at or before r and the rest decomposes |
| Enumeration.ListedStep | wordle-finder.cpp:96-97 | the words listed from record r are its own word plus those listed from prev, never twice |
| Enumeration.GroupCount | wordle-finder.cpp:98-103 | trying spellings from s on prints x once iff x picks that word with a spelling from s on |
| Enumeration.ExtendsVia | wordle-finder.cpp:99-101 | the recursive call's lines are those through word e with that spelling |
| Enumeration.SearchExact | wordle-finder.cpp:166-170 | from an empty stack, a search of m prints each decomposition of m once and nothing else |
| Enumeration.EveryCoverListed | wordle-finder.cpp:77-105 | every cover of m appears, in some order of its words, among the lines a search of m prints |
| Enumeration.Enumerator.constructor | wordle-finder.cpp:168 | a search starts from an empty stack |
| Enumeration.Enumerator.Search | wordle-finder.cpp:77-105 | `search` leaves the stack as it found it and appends exactly the lines specified by `Out` |
| Enumeration.Enumerator.SearchWord | wordle-finder.cpp:98-103 | the spelling loop pushes, recurses and pops, appending one block of lines per spelling |
| Finder.AllButAndNot | wordle-finder.cpp:167 | `((1u << 26) - 1) & ~(1u << i)` is the full mask minus bit i |
| Finder.AllButBits | wordle-finder.cpp:167 | that mask holds every letter but i |
| Finder.AllButSize | wordle-finder.cpp:167 | that mask has 25 letters and fits in the table |
| Finder.AllButInjective | wordle-finder.cpp:166-167 | different skipped letters give different masks |
| Finder.PrintedCount | wordle-finder.cpp:166-170 | searching distinct masks in turn prints every decomposition of one of them once and nothing else |
| Finder.WordCount | wordle-finder.cpp:166-170 | with five-letter words, a decomposition of the alphabet minus one letter has a fifth of the remaining letters as words |
| Finder.FiveLetterMasks | wordle-finder.cpp:47-61 | every mask `read_words` returns has five letters |
| Finder.SkipListEntries | wordle-finder.cpp:166-167 | entry i of that list skips letter i |
| Finder.PrintedAppend | wordle-finder.cpp:169 | one more search appends its own lines to the output |
| Finder.SearchAll | wordle-finder.cpp:166-170 | the driver loop prints the lines of one search per skipped letter, in order |
| Finder.DriverCount | wordle-finder.cpp:166-170 | the driver prints each line that decomposes the alphabet without one letter exactly once, and no other line |
| Finder.DriverOutput | wordle-finder.cpp:166-170 | the same, over all lines at once, and with five-letter words each line has (letters - 1) / 5 words |
| Finder.DriverLineSize | wordle-finder.cpp:166-170 | with five-letter words every printed line has five words |
| Finder.SkipsFromMasks | wordle-finder.cpp:166-167 | a line decomposes one of the driver's masks iff it skips exactly one letter |
| Finder.Run | wordle-finder.cpp:122-170 | `main` reads the word list as `read_words` does (without dedupe the groups hold every kept token, as often as it was read, in sorted order; with dedupe each group is its mask's least spelling), then prints each five-word, 25-letter solution over that list exactly once and nothing else, search by search for letters 0 to 25 |
| Finder.Solve | wordle-finder.cpp:128-170 | after `read_words`, the program prints each solution once, every line holding five words, in the order of one search per skipped letter |
| Finder.BuildTables | wordle-finder.cpp:128-161 | the bound table and the dynamic program yield a ready solution index over all 2^26 masks |

## Left out

- Reading the file: `std::ifstream` and splitting on white space (lines 41-46) are not modelled. The word list is a parameter, a sequence of tokens. A token stands for the byte string `operator>>` yields, and each `char` of it for one byte, so `|w|` is `word.size()`. There is no decoding. In UTF-8, "naïve" is six bytes, so it is a six-character token; the model skips it as line 47 does, and the requirement on letters does not apply to it. "café" is five bytes, two of them outside `a`..`z`; the source reaches an undefined shift for it, and the model's requirement excludes it.
- Printing: `std::cout` (lines 85-90) is modelled as appending one line, a sequence of spellings, to `Enumerator.output`. Separators and newlines are not modelled.
- Argument checking and the usage messages (lines 110-120) are not modelled. `Run` takes the dedupe flag as a parameter.
- The `dups` vector (lines 45, 62) is written but never read, so it is not modelled.
- Characters outside `a`..`z`: `Run` and `ReadWords` require every five-character token to be made of the letters `a`..`z`. Other characters are not modelled. For a character whose `c - 'a'` falls outside 0..31, such as anything below `a`, the shift `1u << index` is undefined. For `{`, `|`, `}`, `~` and DEL the shift is defined, but a word with no repeated letter then gets a mask beyond 2^26 and `dups[bitmask]` (line 62) writes out of bounds. Such a word with a repeated letter is skipped harmlessly at lines 58-59; the model still excludes it. Tokens of other lengths may hold anything, because line 47 skips them.
- Ingest.SortEntries: `std::sort` is modelled as a functional insertion sort. Its contract is ordered plus permutation, which is all the program relies on. Speed is not modelled.
- Bounds.InnerLoopBounds: the table size is a parameter, and `BuildTables` passes 2^26. `__builtin_clz` is modelled by `Msb` with the comparison reversed. Its value for 0 is never needed, because entry 0 is never computed.
- SolutionIndex.BuildIndex: `has_solution` and `result_ptrs` are arrays of 2^26 entries, as in the source. The `size` local (line 148) is unused and left out. The signed/unsigned conversions of `j` and `word_bitmasks.size()` are not written out. For an empty list, `word_bitmasks.size() - 1` wraps to the largest `size_t`, and its conversion to `int` gives -1 (modular since C++20, and what compilers have always done). That is the model's `j := |B| - 1`. For other lists every value is below 2^31.
- SolutionIndex.VisitMask and SolutionIndex.ExtendMask: the loop body of lines 144-160 is split into two methods. The loop itself stays in `BuildIndex` and the inner loop in `ExtendMask`.
- Enumeration.Enumerator.SearchWord: the spelling loop of lines 98-103 is a separate method, called from the list walk in `Search`.
- Finder.SearchAll: the driver loop is generic in the alphabet size and reuses one `Enumerator`. Each search starts and ends with an empty stack, as the fresh `stack` of line 168 does.
- Finder.Solve and Finder.BuildTables: these split `main` after `read_words` into the table-building half and the search half.
- Bounds.BoundsMonotone: this property is stated as a lemma about the table. The sweep does not need it, because it is proved against `IsBound` directly.
- Performance is not modelled: the running time of the sweep and of the dynamic program, and the claim that the search never takes a useless step. The tables themselves have their real size of 2^26 entries.
- SolutionIndex.BuildIndex: record indices are unbounded. In the source they are `int` (lines 142, 156, 158), so the model assumes fewer than 2^31 records. Real word lists produce far fewer. A list of all 65,780 five-letter sets would produce more, and from record 2^31 on, negative `prev` pointers would cut the lists that `search` follows.

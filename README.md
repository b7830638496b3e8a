# troldalgo in Dafny

A model of `troldalgo.hpp`, the header of the troldal/Algorithms library.
The header holds three things:

- **Find-all algorithms.** `find_all`, `find_all_if`, `find_all_if_not`, `find_all_of`, `find_all_not_of` and both overloads of `search_all`. Each wraps a standard single-match search in a loop that reports every hit through an output iterator.
- **`find_first_not_of`.** A single-match helper.
- **`split`.** It cuts a container at the positions one of four delimiter strategies locates: `ByElement`, `BySequence`, `ByAnyElement` and `ByLength`.

Representation:

- A position is a `nat` index into a `seq<T>`, and `|s|` plays the role of the end iterator.
- An output iterator is the sequence of everything written through it.
- Predicates are Dafny functions `T -> bool` and `(T, T) -> bool`.

Modules:

- `Positions` (positions.dfy): the two search shapes everything else instantiates. `FirstWhere` finds the first index of a range that meets a criterion. `Where` lists every such index in scan order.
- `StdSearch` (std_search.dfy): the standard searches the library calls (`std::find`, `std::find_if`, `std::find_if_not`, `std::find_first_of`, `std::search`), as functions over `FirstWhere`.
- `Searching` (searching.dfy): the find-all loops, as methods with loop invariants, and `find_first_not_of`.
  - Each method is proved equal to `Where` over its criterion.
  - Each also states outright what that means: the output lists exactly the matching indices, in strictly increasing order.
- `Splitting` (splitting.dfy):
  - The delimiter strategies, as a datatype with `Find` (a method) and `Length` (a function).
  - `split`, as a method whose loop walks a cursor over the container.
  - Lemmas on what the strategies locate and what the pieces rebuild.
- `Corrections` (corrections.dfy): the findings below. Each one has the code as written with an input that exposes it, and a corrected definition with the intended property proved.

The model follows the code where it and the library's stated intent differ:

- `search_all` steps one element past a hit, so it reports overlapping occurrences. The intent is non-overlapping matches.
- `find_first_not_of` accepts an element that differs from some candidate. The intent is an element that is none of them.
- `split` emits no piece after the last delimiter. The intent is one piece more than there are delimiters.
- `ByLength::Find` records chunk starts rather than chunk ends.

Each of these is listed under Findings.

Two preconditions come from the code:

- `split` requires each located position to lie at or after the cursor. Otherwise its copy would run backwards, which C++ leaves undefined.
- `ByLength` requires a positive length. With 0 its loop never ends on a non-empty container, and a negative length steps backwards.

## Model

| member | source | states |
|---|---|---|
| StdSearch.FindIf | library/troldalgo.hpp:131 | `std::find_if`: the result is the first index at or after the cursor whose element satisfies p, or the end when none does |
| StdSearch.Find | library/troldalgo.hpp:94 | `std::find`: the first index at or after the cursor holding the value; the value does not occur between the cursor and the result |
| StdSearch.FindIfNot | library/troldalgo.hpp:168 | `std::find_if_not`: the first index at or after the cursor where p fails; p holds on every element skipped |
| StdSearch.FindFirstOfBy | library/troldalgo.hpp:191-195 | `std::find_first_of` with a relation: the first index whose element is related to some candidate; every skipped element is related to none |
| StdSearch.FindFirstOf | library/troldalgo.hpp:217 | `std::find_first_of`: the first index whose element is one of the candidates; no skipped element is |
| StdSearch.SearchBy | library/troldalgo.hpp:307 | `std::search` with a predicate: the first start index where the whole pattern fits and matches element by element; no earlier start matches; an empty pattern matches at the cursor |
| StdSearch.OccursAtEqual | library/troldalgo.hpp:275 | under `operator==`, an element-by-element match is exactly a slice equal to the pattern |
| StdSearch.Search | library/troldalgo.hpp:275 | `std::search`: the first start index whose slice equals the pattern; no earlier start has one |
| Searching.FindAll | library/troldalgo.hpp:88-100 | every index holding the value and no other, strictly increasing; their number is the value's multiplicity in the container, so an empty range or an absent value gives none |
| Searching.OccurrenceCount | library/troldalgo.hpp:88-100 | the number of positions `find_all` reports from an index on is the number of occurrences of the value from there |
| Searching.FindAllIf | library/troldalgo.hpp:125-137 | exactly the indices whose element satisfies p, strictly increasing |
| Searching.FindAllIfNot | library/troldalgo.hpp:162-174 | exactly the indices whose element fails p, strictly increasing |
| Searching.IfAndIfNotPartition | library/troldalgo.hpp:125-174 | `find_all_if` and `find_all_if_not` with the same predicate report every index exactly once between them; their counts sum to the length |
| Searching.FindFirstNotOf | library/troldalgo.hpp:186-196 | the first index whose element differs from at least one candidate; every skipped element equals every candidate; with no candidates the result is the end |
| Searching.FirstNotOfSingleCandidate | library/troldalgo.hpp:186-196 | with one candidate c, `find_first_not_of` is `std::find_if_not` with `== c` |
| Searching.FindAllOf | library/troldalgo.hpp:210-225 | exactly the indices whose element is one of the candidates, strictly increasing |
| Searching.FindAllNotOf | library/troldalgo.hpp:239-254 | exactly the indices whose element differs from some candidate, strictly increasing |
| Searching.NotOfSingleCandidate | library/troldalgo.hpp:239-254 | with one candidate c, `find_all_not_of` reports the indices not holding c, and with `find_all_of` it covers every index exactly once |
| Searching.NoCandidates | library/troldalgo.hpp:210-254 | with an empty candidate range neither `find_all_of` nor `find_all_not_of` reports anything |
| Searching.SatisfyingIndices | library/troldalgo.hpp:125-137 | the positions a find-all loop reports for an element criterion are exactly the indices meeting it, strictly increasing |
| Searching.SearchAll | library/troldalgo.hpp:268-283 | every start index whose slice equals the pattern, overlapping occurrences included, strictly increasing |
| Searching.SearchAllBy | library/troldalgo.hpp:299-315 | every start index where the pattern matches under the predicate, overlaps included, strictly increasing |
| Searching.OccurrenceIndices | library/troldalgo.hpp:299-315 | the pattern criterion selects exactly the start indices before the end where the pattern occurs, strictly increasing |
| Searching.SearchAllEmptyPattern | library/troldalgo.hpp:268-315 | an empty pattern gives every index 0 .. n-1 |
| Searching.SearchAllOverlaps | library/troldalgo.hpp:278 | because the cursor steps one element past a hit, "aa" is reported in "aaa" at 0 and at 1 |
| Splitting.Delimiter.Find | library/troldalgo.hpp:341-476 | each strategy's positions: `find_all` for `ByElement`, `search_all` for `BySequence`, `find_all_of` for `ByAnyElement`; for `ByLength` the loop that records the cursor before each step while more than the length remains |
| Splitting.LocatedDelimiters | library/troldalgo.hpp:341-480 | for every strategy with its `Length()`: positions strictly increasing, every delimiter inside the container, positions exactly the delimiter occurrences (for `ByLength`, the multiples k*n, on a non-empty container ceil(len/n)-1 of them) |
| Splitting.ElementLocations | library/troldalgo.hpp:341-356 | `ByElement`: the positions of the element, strictly increasing, each one element wide inside the container |
| Splitting.SequenceLocations | library/troldalgo.hpp:387-402 | `BySequence`: the start of every occurrence of the sequence, strictly increasing, each occurrence inside the container |
| Splitting.AnyElementLocations | library/troldalgo.hpp:421-436 | `ByAnyElement`: the positions of every element that is one of the elements, strictly increasing |
| Splitting.LengthLocations | library/troldalgo.hpp:462-480 | `ByLength(n)`: the k-th position is k*n, strictly increasing, and c positions leave between 1 and n elements after the last |
| Splitting.ChunkStartsShape | library/troldalgo.hpp:471-474 | the recorded cursors from `begin` are begin + k*n, and their number c satisfies c*n < len-begin <= (c+1)*n |
| Splitting.Split | library/troldalgo.hpp:495-512 | one piece per located position; piece k is the copy from the cursor to position k, and the cursor then moves past the delimiter |
| Splitting.EmptyContainer | library/troldalgo.hpp:495-512 | on an empty container no strategy locates anything, so `split` emits nothing |
| Splitting.SplitDefined | library/troldalgo.hpp:506-510 | for `ByElement`, `ByAnyElement` and `ByLength` the precondition of `split` holds on every container |
| Splitting.OverlappingSequence | library/troldalgo.hpp:510 | for "####" split by "##" the located positions are 0, 1, 2 and the cursor after the first delimiter is past the next position |
| Splitting.LeadingDelimiterGivesEmptyPiece | library/troldalgo.hpp:503-511 | under `ByElement` or `ByAnyElement`, a delimiter at the start of the container gives an empty first piece |
| Splitting.AdjacentDelimitersGiveEmptyPieces | library/troldalgo.hpp:503-511 | under `ByElement` or `ByAnyElement`, delimiters at i and i + 1 are consecutive located positions, and the piece between them is empty |
| Splitting.RebuildPrefix | library/troldalgo.hpp:506-511 | the first m pieces, each followed by its delimiter, are the container up to the cursor after the m-th delimiter |
| Splitting.RebuildAll | library/troldalgo.hpp:506-511 | all pieces, each followed by its delimiter, are the container up to and including the last delimiter |
| Splitting.LocationsFit | library/troldalgo.hpp:341-480 | every strategy's delimiters lie inside the container |
| Splitting.SplitRebuildsPrefix | library/troldalgo.hpp:495-512 | for every strategy, the pieces with their delimiters rebuild the container through the last delimiter |
| Splitting.ConsumedElements | library/troldalgo.hpp:350-355 | under `ByElement(e)` every skipped delimiter is exactly [e] |
| Splitting.ConsumedSequences | library/troldalgo.hpp:396-401 | under `BySequence(sq)` every skipped delimiter is exactly sq |
| Splitting.ConsumedAnyElements | library/troldalgo.hpp:430-435 | under `ByAnyElement(es)` every skipped delimiter is a single element of es |
| Corrections.SplitDropsTail | library/troldalgo.hpp:506-511 | "a;b" split at ';' gives only "a" as written, and "a", "b" with the tail kept |
| Corrections.SplitAt | library/troldalgo.hpp:503-511 | the walk of `split`, then the elements from the last cursor to the end as a final piece |
| Corrections.SplitAll | library/troldalgo.hpp:495-512 | `split` with the tail kept, for any strategy |
| Corrections.SplitAllRebuilds | library/troldalgo.hpp:506-511 | with the tail kept, the pieces with their delimiters in between are the whole container |
| Corrections.JoinRebuilds | library/troldalgo.hpp:506-511 | when every skipped delimiter is the same separator, joining the pieces with it gives the container |
| Corrections.SplitAllByElementRebuilds | library/troldalgo.hpp:341-356 | split at `ByElement(e)` with the tail kept, then joined with e, gives the container |
| Corrections.InterleaveConstant | library/troldalgo.hpp:506-511 | pieces interleaved with a constant separator are the pieces joined by it, plus one trailing separator |
| Corrections.FindChunkEnds | library/troldalgo.hpp:471-474 | corrected `ByLength::Find`: steps the cursor before recording it, giving the chunk ends |
| Corrections.ChunkEndsShifted | library/troldalgo.hpp:471-474 | the corrected positions are the recorded chunk starts each moved one chunk on, and there are as many of them |
| Corrections.ChunkEndsShape | library/troldalgo.hpp:471-474 | the k-th chunk end from `begin` is begin + (k+1)*n, and c of them leave 1 to n elements after the last |
| Corrections.ChunkEndsInOrder | library/troldalgo.hpp:506-510 | the chunk ends meet the precondition of `split` |
| Corrections.SplitIntoChunks | library/troldalgo.hpp:462-512 | the corrected `ByLength` split with the tail kept |
| Corrections.FixedLengthChunks | library/troldalgo.hpp:462-512 | chunk k is the n elements from k*n, the last holds the remaining 1 to n (one empty piece for an empty container), ceil(len/n) chunks in all |
| Corrections.LengthSplitLeadsWithEmpty | library/troldalgo.hpp:471-474 | `ByLength(2)` on "abcd" records only 0 as written, so `split` emits one empty piece; corrected, it emits "ab" and "cd" |
| Corrections.LengthSplitShape | library/troldalgo.hpp:471-511 | as written, `ByLength(n)` splits into an empty first piece, then the chunk before each further recorded start; pieces exist exactly when the container is longer than n |
| Corrections.SearchAllDisjoint | library/troldalgo.hpp:268-283 | corrected `search_all`: after a hit the cursor moves past the whole occurrence |
| Corrections.DisjointOccurrences | library/troldalgo.hpp:268-283 | the corrected positions are occurrences of the pattern inside the container, each starting at or after the end of the one before |
| Corrections.DisjointGreedy | library/troldalgo.hpp:268-283 | every occurrence the corrected search skips overlaps one it reports |
| Corrections.DisjointInOrder | library/troldalgo.hpp:506-510 | the corrected positions meet the precondition of `split` |
| Corrections.SplitBySequence | library/troldalgo.hpp:387-402 | `BySequence` split over the corrected positions with the tail kept, defined on every container |
| Corrections.DisjointSplitRebuilds | library/troldalgo.hpp:387-402 | that split, joined back with the sequence, gives the container |
| Corrections.OverlapsBreakSplit | library/troldalgo.hpp:278 | on "####" with "##": as written 0, 1, 2 and `split` undefined; corrected 0, 2 and three empty pieces |
| Corrections.FindFirstNotIn | library/troldalgo.hpp:186-196 | corrected `find_first_not_of`: the first index whose element is none of the candidates; every skipped element is one of them |
| Corrections.FirstNotOfDiffersFromSome | library/troldalgo.hpp:191-195 | on "ABCDDCBAABCDDCBAX" with "AB" the code as written returns 0, the corrected search 2 |
| Corrections.FirstNotInOneCandidate | library/troldalgo.hpp:186-196 | with one candidate, the code as written and the corrected search agree |
| Corrections.FindAllNotIn | library/troldalgo.hpp:239-254 | corrected `find_all_not_of`: exactly the indices whose element is none of the candidates, strictly increasing |
| Corrections.NotInComplementsOf | library/troldalgo.hpp:210-254 | the corrected `find_all_not_of` and `find_all_of` report every index exactly once between them |

## Left out

- The execution-policy overloads that the benchmarks and the parallel test sections call are not modelled. The header does not define them.
- The example programs are not modelled: they do console and file I/O. The benchmark is not modelled either: it uses random data, timing and parallel execution.
- The compile-time iterator-category checks (`IsRandomAccessIterator` and the `static_assert`s) are not modelled. Indices into a sequence stand in for every iterator category. Forward-only containers such as sets are modelled as sequences in their iteration order.
- The header defines no predicate overload of `find_first_not_of`, `find_all_of` or `find_all_not_of`. The example functions that would call them are declared without bodies, and their test is commented out, so there is nothing to model.
- Exceptions that a predicate or an element comparison might throw are not modelled: predicates are total Dafny functions.
- `split` takes its container by value, and the strategies keep references to their element or sequence. Dafny values make both moot, so neither lifetime nor aliasing is modelled.
- Splitting.Delimiter.Length: no contract of its own. It returns a constant (1, 0) or the sequence's length, and its meaning, the width of the delimiter `split` skips, is stated by `LocatedDelimiters`, `Consumed` and the `Consumed*` lemmas.
- `std::ptrdiff_t` overflow in `ByLength` and `size_t` in `Length()` are not modelled: lengths and positions are unbounded.

## Findings

| source | as written | input that shows it | evidently intended | confidence | as-written member | corrected member |
|---|---|---|---|---|---|---|
| library/troldalgo.hpp:506-511 | `split` emits one piece per located delimiter, so the elements after the last delimiter are never emitted | "a;b" split at ';' gives only "a" | one piece more than there are delimiters, the last running to the end, so that the pieces joined with the delimiter give the container | not executed | Corrections.SplitDropsTail | Corrections.SplitAll |
| library/troldalgo.hpp:471-474 | `ByLength::Find` records the cursor before stepping it, so its positions are chunk starts beginning with 0 | "abcd" split by `ByLength(2)` gives one empty piece | chunks of n elements, the last holding the remaining 1 to n | not executed | Corrections.LengthSplitLeadsWithEmpty | Corrections.FixedLengthChunks |
| library/troldalgo.hpp:191-195 | `find_first_not_of` passes `!=` to `std::find_first_of`, which accepts an element differing from any one candidate | "ABCDDCBAABCDDCBAX" with candidates "AB" gives 0 | the first element that is none of the candidates (index 2 here) | not executed | Corrections.FirstNotOfDiffersFromSome | Corrections.FindFirstNotIn |
| library/troldalgo.hpp:278 | `search_all` steps one element past a hit, so occurrences overlap, and `split` by that sequence then copies a backwards range | "####" with "##" gives 0, 1, 2; `split` after the delimiter at 0 has its cursor at 2, past the location 1 | occurrences that do not overlap (0 and 2), so that `BySequence` splitting is defined and the pieces joined with the sequence give the container | not executed | Corrections.OverlapsBreakSplit | Corrections.SplitBySequence |

The library's own modules keep the code as written. `Searching.FindAllNotOf` uses the as-written `find_first_not_of`, `Splitting.Split` drops the tail, and `Splitting.Delimiter.Find` records chunk starts. The corrected definitions live in `Corrections`, next to the lemmas that prove the intended properties.

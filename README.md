# Census top-3 ages, modelled in Dafny

`Census` answers one question for one region or for a list of regions: which
ages occur most often? It counts every age into a frequency table, an
age → count `ConcurrentHashMap`. It sorts the table's entries by count,
largest first. It then emits `rank:age=count` lines
(`OUTPUT_FORMAT = "%d:%d=%d"`) for the three largest distinct counts. Ranks are
dense: ages with equal counts share a rank, and every age tied at rank 3 is
still emitted. A negative age, or an iterator whose `close()` fails, is a
failure. A region the iterator factory cannot open gives an empty answer.

The model has five files:

- `wrappers.dfy`: `Option`.
- `format.dfy` (module `ResultFormat`):
  - the `RankedEntry` triple;
  - `%d` rendering of integers and the line format;
  - a parser that reads a line back, proving the format loses nothing.
- `frequency.dfy` (module `Frequency`):
  - the table as a `map<int, nat>`;
  - the shared map as class `AgeCountMap`, with `Merge` for `merge(age, 1, Integer::sum)`;
  - the counting loop `CalculateCountOfEachAge`.
- `ranking.dfy` (module `Ranking`):
  - the sort of the entries by count;
  - the dense-rank walk `GetTop3Ages`;
  - the specification of a top-3 answer (`RanksTop3`, `DenseRank`) and the theorem that the walk meets it.
- `census.dfy` (module `Census`):
  - a region as the factory delivers it;
  - both public `top3Ages` operations, with exceptions turned into an explicit `Answer`;
  - the lemmas that the batch table is the sum of the per-region tables and does not depend on region order.

A region is a value:

- `NotFound` stands for a factory that throws a runtime exception other than `IllegalArgumentException`.
- `Opened(ages, closeFails)` stands for an iterator yielding `ages`, whose `close()` throws `IOException` exactly when `closeFails` holds.

The batch, which the source spreads over a thread pool, is modelled as a sequential loop over the regions into one shared table. Its result is proved independent of region order (`Census.BatchTableIgnoresOrder`).

The code and the design description differ in two places; the model follows the code in both:

- **Order within a rank.** The design asks for ascending age within a rank. The code sorts only by count, so tied ages come out in hash order. `Ranking.SortEntriesByCount` promises only some listing with non-increasing counts. Every top-3 theorem holds for any such listing.
- **Batch failure policy.** The design leaves the policy open. The code fails the whole batch when any region has a negative age or a failing `close()`, once every region has run. `CompletableFuture.allOf(...).join()` surfaces the exception of the first failing region in list order, whatever order the regions finish in. A region that is not found adds nothing.

## Model

| member | source | states |
|---|---|---|
| ResultFormat.ParseFormat | src/main/java/Census.java:15 | reading a formatted `rank:age=count` line back gives the same triple, so the format loses nothing |
| ResultFormat.FormatInjective | src/main/java/Census.java:15 | two triples with the same line are equal |
| ResultFormat.ParseNatToString | src/main/java/Census.java:15 | `%d` of a non-negative number reads back as that number |
| ResultFormat.ParseMinusNatToString | src/main/java/Census.java:15 | `%d` of a negative number, a minus sign and then its digits, reads back as that number |
| ResultFormat.ParseIntToString | src/main/java/Census.java:15 | `%d` of any int, negative ones included, reads back as that int |
| ResultFormat.NatToString | src/main/java/Census.java:15 | `%d` of a non-negative number is a non-empty run of decimal digits, one digit exactly below 10, with no leading zero |
| ResultFormat.DigitsValueOfNatToString | src/main/java/Census.java:15 | the digits `%d` writes for a non-negative number denote that number |
| ResultFormat.IntToString | src/main/java/Census.java:15 | `%d` is non-empty and holds no `:` or `=`, so the line's separators are unambiguous |
| ResultFormat.FormatAllAppend | src/main/java/Census.java:68 | formatting one more entry appends exactly its line |
| Frequency.AddAllCounts | src/main/java/Census.java:39-46 | after merging a sequence, every age's count has risen by its number of occurrences, and the keys are the old keys plus the merged ages |
| Frequency.CountOfEachAge | src/main/java/Census.java:39-46 | the table of a sequence has exactly the ages that occur in it, each with its number of occurrences (at least 1) |
| Frequency.CountsSumToLength | src/main/java/Census.java:39-46 | the counts of a sequence's table add up to its length |
| Frequency.TotalAddAll | src/main/java/Census.java:39-46 | merging a sequence into any table raises the sum of its counts by the sequence's length |
| Frequency.CountOfEachAgeIgnoresOrder | src/main/java/Census.java:44 | two sequences with the same ages, in any order, give the same table |
| Frequency.AddAllIsPlus | src/main/java/Census.java:44 | merging a sequence into a table is the pointwise sum (`Integer::sum`) of that table and the sequence's own table |
| Frequency.AddAllConcat | src/main/java/Census.java:44 | merging two sequences one after the other is merging their concatenation |
| Frequency.ValidPrefixLength | src/main/java/Census.java:40-45 | the ages consumed before the first negative one: all non-negative, followed by a negative age unless the whole sequence is valid |
| Frequency.AgeCountMap.constructor | src/main/java/Census.java:78 | a new shared map is empty |
| Frequency.AgeCountMap.Merge | src/main/java/Census.java:44 | `merge(age, 1, Integer::sum)` inserts 1 or adds 1 to that age's count and changes nothing else |
| Frequency.CalculateCountOfEachAge | src/main/java/Census.java:39-47 | it succeeds iff no age is negative; the table gains exactly the ages before the first negative one, which stay merged when it fails |
| Ranking.SortByCountDescIsSortedListing | src/main/java/Census.java:56-58 | the sort lists every entry of the table exactly once, with counts never increasing |
| Ranking.SortEntriesByCount | src/main/java/Census.java:56-58 | the sorted entries are a listing of the table whose counts never increase; the order among equal counts is left open |
| Ranking.RankIsLevels | src/main/java/Census.java:59-66 | along a sorted listing, the walk's rank of an entry is the number of distinct counts up to it |
| Ranking.LevelsStep | src/main/java/Census.java:63-65 | the rank rises exactly when an entry's count differs from the previous entry's |
| Ranking.RankIsDenseRank | src/main/java/Census.java:59-66 | the walk's rank of an entry is the dense rank of its age in the table |
| Ranking.RankMonotone | src/main/java/Census.java:63-65 | the walk's rank never decreases along the listing |
| Ranking.TruncationKeepsTop3 | src/main/java/Census.java:67 | stopping where the fourth rank starts leaves out no age of dense rank 3 or better |
| Ranking.WalkShape | src/main/java/Census.java:59-68 | the emitted lines have distinct ages, non-increasing counts, rank 1 first, and a rank that rises by one exactly where the count changes |
| Ranking.WalkAt | src/main/java/Census.java:59-68 | the `j`-th emitted line is (rank of entry `j`, its age, its count), and all ranks stay at most 3 |
| Ranking.TruncatedRankingIsTop3 | src/main/java/Census.java:59-69 | walking a sorted listing and stopping before rank 4 gives a top-3 answer: each line has its age's count and dense rank ≤ 3, counts never increase, ranks start at 1 and step by one where the count changes, and every age of dense rank ≤ 3 appears exactly once |
| Ranking.WalkIsTop3 | src/main/java/Census.java:59-69 | the formatted lines of such a walk are the lines of a top-3 answer |
| Ranking.GetTop3Ages | src/main/java/Census.java:54-70 | the returned lines are the formatted lines of a top-3 answer for the table |
| Ranking.Top3Size | src/main/java/Census.java:59-69 | a top-3 answer holds exactly the ages of dense rank at most 3, one line each |
| Ranking.AllEmittedUpToThreeCounts | src/main/java/Census.java:59-69 | with at most three distinct counts every entry is emitted; an empty table gives no lines |
| Census.Top3Ages | src/main/java/Census.java:76-91 | a missing region gives no lines; a negative age is an `InvalidAge` failure, even when the close also fails; otherwise a failing close is a `CloseFailure`; otherwise the lines are a top-3 answer for the region's table |
| Census.Top3AgesOfRegions | src/main/java/Census.java:98-125 | the batch fails iff some region has a negative age or a failing close, reporting the fault of the first failing region in list order; otherwise the lines are a top-3 answer for the shared table, which is the sum of the per-region tables |
| Census.BatchTableStep | src/main/java/Census.java:106-109 | counting one more region into the shared table merges exactly that region's contribution |
| Census.BatchTableIsSumOfRegionTables | src/main/java/Census.java:101-109 | the shared table is the pointwise sum of the tables each region would produce alone |
| Census.BatchTableIgnoresOrder | src/main/java/Census.java:106-120 | any order of the regions gives the same shared table |
| Census.BatchTableIgnoresInterleaving | src/main/java/Census.java:106-120 | any interleaving of the regions' merges, age by age, as concurrent workers produce it, gives the same shared table |
| Census.BatchFaultIsFirstFailure | src/main/java/Census.java:110-120 | the batch fault is present iff some region fails, and it is the fault of the first failing region in list order |
| Census.CollectConcat | src/main/java/Census.java:106-109 | collecting two runs of regions in turn collects their concatenation |
| Census.CollectIgnoresOrder | src/main/java/Census.java:106-120 | reordering the regions only reorders the collected ages |
| Census.BatchOfOne | src/main/java/Census.java:98-125 | a batch of one region counts the same table as the single-region call on it |

## Left out

- Concurrency: the thread pool, `CompletableFuture`, `join`, `shutdown` and `CORES`. The batch is a sequential loop. In place of the threads, the merged table is proved the same for any interleaving of the regions' merges (`Census.BatchTableIgnoresInterleaving`). Atomicity of `merge` is assumed, as `ConcurrentHashMap` provides it.
- The iterator factory and `AgeInputIterator`: a region is given as a `Region` value. A runtime error raised in the middle of an iteration, after some ages were merged, is not modelled. Only a factory that fails before yielding anything is (`NotFound`).
- Exception classes and messages: the `RuntimeException` wrappers and their message strings are collapsed into the two `Fault` values.
- Ranking.SortEntriesByCount: the order among ages with equal counts follows `ConcurrentHashMap` iteration order and is not modelled. The contract allows any order. The function behind it happens to take ascending age, but nothing relies on that.
- 32-bit `int` overflow of ages and counts: integers are unbounded.
- Locale details of `String.format`: `%d` is rendered as an optional `-` followed by ASCII decimal digits.

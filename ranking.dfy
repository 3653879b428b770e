/**
 * The top-3 ranker (Census.getTop3Ages): the table's entries sorted by count,
 * largest first, then walked with a rank counter that rises only where the
 * count changes, stopping where a fourth rank would start.
 */
module Ranking {
  import opened ResultFormat
  import opened Frequency

  /** One `Map.Entry<Integer, Integer>` of the table: an age and its count. */
  datatype Entry = Entry(age: int, count: nat)

  /** `es` lists every entry of `m`, each exactly once. */
  ghost predicate IsListing(es: seq<Entry>, m: map<int, nat>)
  {
    && (forall i :: 0 <= i < |es| ==> es[i].age in m && es[i].count == m[es[i].age])
    && (forall i, j :: 0 <= i < j < |es| ==> es[i].age != es[j].age)
    && (forall a :: a in m ==> exists i :: 0 <= i < |es| && es[i].age == a)
  }

  /** Counts never increase along `es`. */
  ghost predicate SortedByCountDesc(es: seq<Entry>)
  {
    forall i, j :: 0 <= i < j < |es| ==> es[i].count >= es[j].count
  }

  /** `k` has the largest count of `m`, and is the smallest such age. */
  predicate ComesFirst(m: map<int, nat>, k: int)
  {
    k in m && forall j :: j in m ==> m[j] < m[k] || (m[j] == m[k] && k <= j)
  }

  lemma {:induction false} FirstExists(m: map<int, nat>)
    requires m.Keys != {}
    ensures exists k :: ComesFirst(m, k)
    decreases |m|
  {
    var x := Pick(m.Keys);
    var rest := m - {x};
    assert m.Keys == rest.Keys + {x};
    if rest.Keys == {} {
      assert ComesFirst(m, x);
    } else {
      FirstExists(rest);
      var k :| ComesFirst(rest, k);
      var best := if m[x] > m[k] || (m[x] == m[k] && x < k) then x else k;
      forall j | j in m
        ensures m[j] < m[best] || (m[j] == m[best] && best <= j)
      {
        if j != x {
          assert j in rest && rest[j] == m[j];
        }
      }
      assert ComesFirst(m, best);
    }
  }

  lemma PrependListing(m: map<int, nat>, k: int, tail: seq<Entry>)
    requires k in m && IsListing(tail, m - {k})
    ensures IsListing([Entry(k, m[k])] + tail, m)
  {
    var es := [Entry(k, m[k])] + tail;
    forall a | a in m
      ensures exists i :: 0 <= i < |es| && es[i].age == a
    {
      if a == k {
        assert es[0].age == a;
      } else {
        assert a in m - {k};
        var i :| 0 <= i < |tail| && tail[i].age == a;
        assert es[i + 1].age == a;
      }
    }
  }

  /**
   * The entries of `m` sorted by count, largest first: the stream sort of the
   * entry set. Ties are taken in ascending age here; nothing below relies on
   * that order.
   */
  function SortByCountDesc(m: map<int, nat>): seq<Entry>
    decreases |m|
  {
    if m.Keys == {} then []
    else
      FirstExists(m);
      var k :| ComesFirst(m, k);
      [Entry(k, m[k])] + SortByCountDesc(m - {k})
  }

  /** The sort lists every entry of the table once, counts never increasing. */
  lemma {:induction false} SortByCountDescIsSortedListing(m: map<int, nat>)
    ensures IsListing(SortByCountDesc(m), m) && SortedByCountDesc(SortByCountDesc(m))
    decreases |m|
  {
    if m.Keys != {} {
      FirstExists(m);
      var k :| ComesFirst(m, k);
      SortByCountDescIsSortedListing(m - {k});
      PrependListing(m, k, SortByCountDesc(m - {k}));
    }
  }

  /** The distinct counts among the first `n` entries of `es`. */
  ghost function Levels(es: seq<Entry>, n: nat): set<nat>
    requires n <= |es|
  {
    set j | 0 <= j < n :: es[j].count
  }

  /** The distinct counts of `m` that are at least `c`. */
  ghost function CountsAtLeast(m: map<int, nat>, c: nat): set<nat>
  {
    set b | b in m && m[b] >= c :: m[b]
  }

  /**
   * The dense rank of age `a` in `m`: 1 for the largest count, and one more
   * for every smaller distinct count; ages with equal counts share it.
   */
  ghost function DenseRank(m: map<int, nat>, a: int): nat
    requires a in m
  {
    |CountsAtLeast(m, m[a])|
  }

  /**
   * `out` is a top-3 answer for table `m`: every age of `m` whose count is
   * among the three largest distinct counts, each once, with its count and
   * dense rank, counts never increasing, the rank starting at 1 and rising by
   * one exactly where the count changes.
   */
  ghost predicate RanksTop3(m: map<int, nat>, out: seq<RankedEntry>)
  {
    && (forall i :: 0 <= i < |out| ==>
          out[i].age in m && out[i].count == m[out[i].age]
          && out[i].rank == DenseRank(m, out[i].age) && out[i].rank <= 3)
    && (forall i, j :: 0 <= i < j < |out| ==> out[i].age != out[j].age && out[i].count >= out[j].count)
    && (|out| > 0 ==> out[0].rank == 1)
    && (forall i :: 0 < i < |out| ==>
          out[i].rank == out[i - 1].rank + (if out[i].count == out[i - 1].count then 0 else 1))
    && (forall a :: a in m && DenseRank(m, a) <= 3 ==> exists i :: 0 <= i < |out| && out[i].age == a)
  }

  /** `lines` is the formatted form of some top-3 answer for `m`. */
  ghost predicate Top3Lines(m: map<int, nat>, lines: seq<string>)
  {
    exists out :: RanksTop3(m, out) && lines == FormatAll(out)
  }

  lemma {:induction false} SubsetCard(a: set<nat>, b: set<nat>)
    requires a <= b
    ensures |a| <= |b|
    decreases |a|
  {
    if a != {} {
      var x :| x in a;
      SubsetCard(a - {x}, b - {x});
    }
  }

  /** Along a sorted listing, the next entry adds a new level exactly when its count differs from the previous one. */
  lemma LevelsStep(es: seq<Entry>, i: nat)
    requires SortedByCountDesc(es) && i < |es|
    ensures Levels(es, i + 1) == Levels(es, i) + {es[i].count}
    ensures es[i].count in Levels(es, i) <==> i > 0 && es[i].count == es[i - 1].count
    ensures |Levels(es, i + 1)| == |Levels(es, i)| + (if i > 0 && es[i].count == es[i - 1].count then 0 else 1)
  {
    if es[i].count in Levels(es, i) {
      var j :| 0 <= j < i && es[j].count == es[i].count;
      assert es[j].count >= es[i - 1].count;
    }
    if i > 0 && es[i].count == es[i - 1].count {
      assert es[i - 1].count in Levels(es, i);
      assert Levels(es, i + 1) == Levels(es, i);
    } else {
      assert Levels(es, i + 1) == Levels(es, i) + {es[i].count};
    }
  }

  /** For a sorted listing of `m`, the levels up to entry `i` are the counts of `m` at least its count. */
  lemma LevelsAreCountsAtLeast(m: map<int, nat>, es: seq<Entry>, i: nat)
    requires IsListing(es, m) && SortedByCountDesc(es) && i < |es|
    ensures Levels(es, i + 1) == CountsAtLeast(m, es[i].count)
  {
    forall x | x in Levels(es, i + 1)
      ensures x in CountsAtLeast(m, es[i].count)
    {
      var j :| 0 <= j < i + 1 && es[j].count == x;
      assert es[j].age in m && m[es[j].age] == x;
    }
    forall x | x in CountsAtLeast(m, es[i].count)
      ensures x in Levels(es, i + 1)
    {
      var b :| b in m && m[b] >= es[i].count && m[b] == x;
      var j :| 0 <= j < |es| && es[j].age == b;
      if j <= i {
        assert es[j].count == x;
      } else {
        assert es[i].count == x;
      }
    }
  }

  /** Along a sorted listing of `m`, the walk's rank of an entry is the dense rank of its age. */
  lemma RankIsDenseRank(m: map<int, nat>, es: seq<Entry>, j: nat)
    requires IsListing(es, m) && SortedByCountDesc(es) && j < |es|
    ensures Rank(es, j) == DenseRank(m, es[j].age)
  {
    RankIsLevels(es, j);
    LevelsAreCountsAtLeast(m, es, j);
  }

  /** Stopping the walk where the fourth rank starts leaves out no age of dense rank at most 3. */
  lemma TruncationKeepsTop3(m: map<int, nat>, es: seq<Entry>, n: nat)
    requires IsListing(es, m) && SortedByCountDesc(es) && n <= |es|
    requires n < |es| ==> Rank(es, n) > 3
    ensures forall a :: a in m && DenseRank(m, a) <= 3 ==> exists j :: 0 <= j < n && es[j].age == a
  {
    forall a | a in m && DenseRank(m, a) <= 3
      ensures exists j :: 0 <= j < n && es[j].age == a
    {
      var j :| 0 <= j < |es| && es[j].age == a;
      if j >= n {
        RankIsLevels(es, n);
        LevelsAreCountsAtLeast(m, es, j);
        SubsetCard(Levels(es, n + 1), Levels(es, j + 1));
        assert false;
      }
    }
  }

  /** The walk's lines keep the listing's order: distinct ages, counts never increasing, dense rank steps. */
  lemma WalkShape(es: seq<Entry>, out: seq<RankedEntry>)
    requires SortedByCountDesc(es) && |out| <= |es|
    requires forall i, j :: 0 <= i < j < |es| ==> es[i].age != es[j].age
    requires forall j :: 0 <= j < |out| ==> out[j] == RankedAt(es, j)
    ensures forall i, j :: 0 <= i < j < |out| ==> out[i].age != out[j].age && out[i].count >= out[j].count
    ensures |out| > 0 ==> out[0].rank == 1
    ensures forall i :: 0 < i < |out| ==>
              out[i].rank == out[i - 1].rank + (if out[i].count == out[i - 1].count then 0 else 1)
  {
    forall i, j | 0 <= i < j < |out|
      ensures out[i].age != out[j].age && out[i].count >= out[j].count
    {
      assert out[i] == RankedAt(es, i) && out[j] == RankedAt(es, j);
    }
    forall i | 0 < i < |out|
      ensures out[i].rank == out[i - 1].rank + (if out[i].count == out[i - 1].count then 0 else 1)
    {
      assert out[i] == RankedAt(es, i) && out[i - 1] == RankedAt(es, i - 1);
    }
  }

  /**
   * Walking a sorted listing of `m` with dense ranks and stopping where the
   * fourth rank would start yields a top-3 answer for `m`.
   */
  lemma TruncatedRankingIsTop3(m: map<int, nat>, es: seq<Entry>, out: seq<RankedEntry>)
    requires IsListing(es, m) && SortedByCountDesc(es) && |out| <= |es|
    requires forall j :: 0 <= j < |out| ==> out[j] == RankedAt(es, j) && out[j].rank <= 3
    requires |out| < |es| ==> Rank(es, |out|) > 3
    ensures RanksTop3(m, out)
  {
    forall j | 0 <= j < |out|
      ensures out[j].rank == DenseRank(m, out[j].age)
    {
      RankIsDenseRank(m, es, j);
    }
    WalkShape(es, out);
    TruncationKeepsTop3(m, es, |out|);
    forall a | a in m && DenseRank(m, a) <= 3
      ensures exists i :: 0 <= i < |out| && out[i].age == a
    {
      var j :| 0 <= j < |out| && es[j].age == a;
      assert out[j].age == a;
    }
  }

  /**
   * The rank the walk gives entry `i` of `es`: 1 for the first entry, then one
   * more each time the count differs from the previous entry's.
   */
  ghost function Rank(es: seq<Entry>, i: nat): nat
    requires i < |es|
  {
    if i == 0 then 1 else Rank(es, i - 1) + (if es[i].count == es[i - 1].count then 0 else 1)
  }

  /** The line the walk emits for entry `j`. */
  ghost function RankedAt(es: seq<Entry>, j: nat): RankedEntry
    requires j < |es|
  {
    RankedEntry(Rank(es, j), es[j].age, es[j].count)
  }

  /** Along a sorted listing, the walk's rank of an entry is the number of distinct counts up to it. */
  lemma {:induction false} RankIsLevels(es: seq<Entry>, i: nat)
    requires SortedByCountDesc(es) && i < |es|
    ensures Rank(es, i) == |Levels(es, i + 1)|
  {
    LevelsStep(es, i);
    if i > 0 {
      RankIsLevels(es, i - 1);
    }
  }

  /** The ages a list of lines speaks of. */
  ghost function AgesOf(out: seq<RankedEntry>): set<int>
  {
    set i | 0 <= i < |out| :: out[i].age
  }

  lemma {:induction false} DistinctAgesCard(out: seq<RankedEntry>)
    requires forall i, j :: 0 <= i < j < |out| ==> out[i].age != out[j].age
    ensures |AgesOf(out)| == |out|
  {
    if out != [] {
      var init := out[..|out| - 1];
      DistinctAgesCard(init);
      assert AgesOf(out) == AgesOf(init) + {out[|out| - 1].age};
      assert out[|out| - 1].age !in AgesOf(init);
    }
  }

  /**
   * A top-3 answer holds exactly the ages whose dense rank is at most 3, one
   * line each.
   */
  lemma Top3Size(m: map<int, nat>, out: seq<RankedEntry>)
    requires RanksTop3(m, out)
    ensures AgesOf(out) == set a | a in m && DenseRank(m, a) <= 3
    ensures |out| == |AgesOf(out)|
  {
    DistinctAgesCard(out);
  }

  /**
   * With at most three distinct counts in the table every entry is emitted;
   * in particular an empty table gives an empty answer.
   */
  lemma AllEmittedUpToThreeCounts(m: map<int, nat>, out: seq<RankedEntry>)
    requires RanksTop3(m, out) && |m.Values| <= 3
    ensures |out| == |m|
  {
    forall a | a in m
      ensures DenseRank(m, a) <= 3
    {
      SubsetCard(CountsAtLeast(m, m[a]), m.Values);
    }
    Top3Size(m, out);
    assert AgesOf(out) == m.Keys;
  }

  /** The ranks the walk gives never decrease along the listing. */
  lemma {:induction false} RankMonotone(es: seq<Entry>, j: nat, k: nat)
    requires j <= k < |es|
    ensures Rank(es, j) <= Rank(es, k)
    decreases k
  {
    if j < k {
      RankMonotone(es, j, k - 1);
    }
  }

  /** The lines the walk emits for the first `n` entries of `es`. */
  ghost function Walk(es: seq<Entry>, n: nat): seq<RankedEntry>
    requires n <= |es|
  {
    if n == 0 then [] else Walk(es, n - 1) + [RankedAt(es, n - 1)]
  }

  /** The walk's `j`-th line is the ranked entry `j`; while the last rank is at most 3, so are all. */
  lemma {:induction false} WalkAt(es: seq<Entry>, n: nat)
    requires n <= |es|
    requires n == 0 || Rank(es, n - 1) <= 3
    ensures |Walk(es, n)| == n
    ensures forall j :: 0 <= j < n ==> Walk(es, n)[j] == RankedAt(es, j) && Walk(es, n)[j].rank <= 3
  {
    if n > 0 {
      RankMonotone(es, if n == 1 then 0 else n - 2, n - 1);
      WalkAt(es, n - 1);
    }
  }

  /**
   * Walking the sorted entries of `m` for as long as the rank stays at most 3
   * gives a top-3 answer for `m`.
   */
  lemma WalkIsTop3(m: map<int, nat>, es: seq<Entry>, n: nat)
    requires IsListing(es, m) && SortedByCountDesc(es) && n <= |es|
    requires n == 0 || Rank(es, n - 1) <= 3
    requires n < |es| ==> Rank(es, n) > 3
    ensures RanksTop3(m, Walk(es, n))
    ensures Top3Lines(m, FormatAll(Walk(es, n)))
  {
    WalkAt(es, n);
    TruncatedRankingIsTop3(m, es, Walk(es, n));
  }

  /** The stream sort: the entries of the table in some order of non-increasing count. */
  method SortEntriesByCount(m: map<int, nat>) returns (es: seq<Entry>)
    ensures IsListing(es, m) && SortedByCountDesc(es)
  {
    es := SortByCountDesc(m);
    SortByCountDescIsSortedListing(m);
  }

  /**
   * getTop3Ages: sorts the entries of the table by count and emits
   * `rank:age=count` for each, the rank rising only where the count changes,
   * until a fourth rank would start.
   */
  method GetTop3Ages(ageCountMap: AgeCountMap) returns (top3Ages: seq<string>)
    ensures Top3Lines(ageCountMap.counts, top3Ages)
  {
    var sortedByCounts := SortEntriesByCount(ageCountMap.counts);
    var prevValue: int := -1;
    var uniqueRankCount := 0;
    top3Ages := [];
    var i := 0;
    while i < |sortedByCounts|
      invariant i <= |sortedByCounts|
      invariant uniqueRankCount == (if i == 0 then 0 else Rank(sortedByCounts, i - 1)) <= 3
      invariant prevValue == if i == 0 then -1 else sortedByCounts[i - 1].count
      invariant top3Ages == FormatAll(Walk(sortedByCounts, i))
    {
      var entry := sortedByCounts[i];
      var ageCount := entry.count;
      if ageCount != prevValue {
        uniqueRankCount := uniqueRankCount + 1;
      }
      prevValue := ageCount;
      if uniqueRankCount > 3 {
        break;
      }
      var line := RankedEntry(uniqueRankCount, entry.age, ageCount);
      FormatAllAppend(Walk(sortedByCounts, i), line);
      top3Ages := top3Ages + FormatAll([line]);
      i := i + 1;
    }
    WalkIsTop3(ageCountMap.counts, sortedByCounts, i);
  }
}

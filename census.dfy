/**
 * The two public entry points of Census: the top three ages of one region,
 * and of several regions counted into one shared table. A region is what the
 * iterator factory gives for its name; exceptions become an explicit answer.
 */
module Census {
  import opened Wrappers
  import opened Frequency
  import opened Ranking

  /** What the iterator factory yields for one region name. */
  datatype Region =
      /** The factory raises a runtime error other than an invalid age (no such region). */
    | NotFound
      /** An iterator over `ages`; `closeFails` when its `close()` raises an IOException. */
    | Opened(ages: seq<int>, closeFails: bool)

  /** The two conditions a call reports as a failure. */
  datatype Fault = InvalidAge | CloseFailure

  /** The answer of a call: the formatted lines, or the failure it reports. */
  datatype Answer = Top3(lines: seq<string>) | Failed(fault: Fault)

  /** Counting this region makes the call fail: a negative age, or a failing close. */
  predicate Fails(region: Region)
  {
    region.Opened? && (HasInvalidAge(region.ages) || region.closeFails)
  }

  /**
   * The failure a region reports: an invalid age wins over a failing close,
   * whose IOException try-with-resources suppresses.
   */
  function FaultOf(region: Region): Fault
    requires Fails(region)
  {
    if HasInvalidAge(region.ages) then InvalidAge else CloseFailure
  }

  /** The ages of a region that reach the shared table: those before its first negative age. */
  function Contribution(region: Region): seq<int>
  {
    match region
    case NotFound => []
    case Opened(ages, _) => ages[..ValidPrefixLength(ages)]
  }

  /** The table one region alone produces. */
  function RegionTable(region: Region): map<int, nat>
  {
    CountOfEachAge(Contribution(region))
  }

  /**
   * The parts of `items`, concatenated in order. Only `BatchAges` uses it; it
   * is generic so that the lemmas about concatenation and reordering below
   * reason about an arbitrary `part`, without unfolding `Contribution`.
   */
  function Collect<T>(part: T -> seq<int>, items: seq<T>): seq<int>
  {
    if items == [] then []
    else Collect(part, items[..|items| - 1]) + part(items[|items| - 1])
  }

  /** Every contribution, in region order. */
  function BatchAges(regions: seq<Region>): seq<int>
  {
    Collect(Contribution, regions)
  }

  /** The shared table once every region has been counted into it. */
  function BatchTable(regions: seq<Region>): map<int, nat>
  {
    CountOfEachAge(BatchAges(regions))
  }

  /**
   * The fault the batch reports: that of the first failing region in list
   * order, whose exception `allOf(...).join()` surfaces; `None` when no region
   * fails.
   */
  function BatchFault(regions: seq<Region>): Option<Fault>
  {
    if regions == [] then None
    else
      var earlier := BatchFault(regions[..|regions| - 1]);
      var last := regions[|regions| - 1];
      if earlier.Some? then earlier
      else if Fails(last) then Some(FaultOf(last))
      else None
  }

  /** The per-region tables added up with `Integer::sum`. */
  function SumOfRegionTables(regions: seq<Region>): map<int, nat>
  {
    if regions == [] then map[]
    else Plus(SumOfRegionTables(regions[..|regions| - 1]), RegionTable(regions[|regions| - 1]))
  }

  lemma CollectSnoc<T>(part: T -> seq<int>, items: seq<T>, item: T)
    ensures Collect(part, items + [item]) == Collect(part, items) + part(item)
  {
    assert (items + [item])[..|items|] == items;
  }

  /** Collecting two runs of items one after another is collecting their concatenation. */
  lemma {:induction false} CollectConcat<T>(part: T -> seq<int>, front: seq<T>, back: seq<T>)
    ensures Collect(part, front + back) == Collect(part, front) + Collect(part, back)
    decreases |back|
  {
    if back == [] {
      assert front + back == front;
    } else {
      var init, last := back[..|back| - 1], back[|back| - 1];
      calc {
        Collect(part, front + back);
        { assert front + back == (front + init) + [last];
          CollectSnoc(part, front + init, last); }
        Collect(part, front + init) + part(last);
        { CollectConcat(part, front, init); }
        Collect(part, front) + Collect(part, init) + part(last);
        { assert back == init + [last];
          CollectSnoc(part, init, last); }
        Collect(part, front) + Collect(part, back);
      }
    }
  }

  /** Collecting an item in the middle contributes the same values as collecting it last. */
  lemma CollectMiddle<T>(part: T -> seq<int>, before: seq<T>, item: T, after: seq<T>)
    ensures multiset(Collect(part, before + [item] + after))
         == multiset(Collect(part, before + after)) + multiset(part(item))
  {
    CollectConcat(part, before + [item], after);
    CollectSnoc(part, before, item);
    CollectConcat(part, before, after);
  }

  /** Taking the same item out of two orderings of one multiset leaves two orderings of one multiset. */
  lemma RemoveSame<T>(init: seq<T>, last: T, before: seq<T>, after: seq<T>)
    requires multiset(init + [last]) == multiset(before + [last] + after)
    ensures multiset(init) == multiset(before + after)
  {
    calc {
      multiset(init);
      multiset(init + [last]) - multiset{last};
      multiset(before + [last] + after) - multiset{last};
      multiset(before + after);
    }
  }

  /** Any order of the same items collects the same multiset of values. */
  lemma {:induction false} CollectIgnoresOrder<T>(part: T -> seq<int>, items: seq<T>, reordered: seq<T>)
    requires multiset(items) == multiset(reordered)
    ensures multiset(Collect(part, items)) == multiset(Collect(part, reordered))
    decreases |items|
  {
    if items != [] {
      var init, last := items[..|items| - 1], items[|items| - 1];
      assert items == init + [last];
      assert last in multiset(reordered);
      var k :| 0 <= k < |reordered| && reordered[k] == last;
      var before, after := reordered[..k], reordered[k + 1..];
      assert reordered == before + [last] + after;
      RemoveSame(init, last, before, after);
      CollectIgnoresOrder(part, init, before + after);
      CollectSnoc(part, init, last);
      CollectMiddle(part, before, last, after);
    }
  }

  /** The shared table does not depend on the order the regions are counted in. */
  lemma BatchTableIgnoresOrder(regions: seq<Region>, reordered: seq<Region>)
    requires multiset(regions) == multiset(reordered)
    ensures BatchTable(regions) == BatchTable(reordered)
  {
    CollectIgnoresOrder(Contribution, regions, reordered);
    CountOfEachAgeIgnoresOrder(BatchAges(regions), BatchAges(reordered));
  }

  /** The batch fault is present iff some region fails, and it is the fault of the first one. */
  lemma {:induction false} BatchFaultIsFirstFailure(regions: seq<Region>)
    ensures BatchFault(regions).None? <==> forall j :: 0 <= j < |regions| ==> !Fails(regions[j])
    ensures BatchFault(regions).Some? ==>
              exists i :: 0 <= i < |regions| && Fails(regions[i]) && BatchFault(regions).value == FaultOf(regions[i])
                       && forall j :: 0 <= j < i ==> !Fails(regions[j])
  {
    if regions != [] {
      var init := regions[..|regions| - 1];
      BatchFaultIsFirstFailure(init);
      if BatchFault(init).Some? {
        var i :| 0 <= i < |init| && Fails(init[i]) && BatchFault(init).value == FaultOf(init[i])
                 && forall j :: 0 <= j < i ==> !Fails(init[j]);
        assert regions[i] == init[i];
        assert forall j :: 0 <= j < i ==> regions[j] == init[j];
      } else {
        assert forall j :: 0 <= j < |init| ==> regions[j] == init[j];
      }
    }
  }

  /**
   * Any interleaving of the regions' merges, age by age, as concurrent workers
   * produce it, gives the shared table: only the multiset of merged ages matters.
   */
  lemma BatchTableIgnoresInterleaving(regions: seq<Region>, merged: seq<int>)
    requires multiset(merged) == multiset(BatchAges(regions))
    ensures CountOfEachAge(merged) == BatchTable(regions)
  {
    CountOfEachAgeIgnoresOrder(merged, BatchAges(regions));
  }

  /** Merging every region into one shared table adds up the tables of the regions. */
  lemma {:induction false} BatchTableIsSumOfRegionTables(regions: seq<Region>)
    ensures BatchTable(regions) == SumOfRegionTables(regions)
  {
    if regions != [] {
      var init := regions[..|regions| - 1];
      var last := regions[|regions| - 1];
      BatchTableIsSumOfRegionTables(init);
      AddAllConcat(map[], BatchAges(init), Contribution(last));
      AddAllIsPlus(BatchTable(init), Contribution(last));
    }
  }

  /** A batch of one region counts the same table as asking for that region alone. */
  lemma BatchOfOne(region: Region)
    ensures BatchTable([region]) == RegionTable(region)
    ensures region.Opened? && !Fails(region) ==> RegionTable(region) == CountOfEachAge(region.ages)
  {
    CollectSnoc(Contribution, [], region);
    assert [] + [region] == [region];
    if region.Opened? && !Fails(region) {
      assert region.ages[..ValidPrefixLength(region.ages)] == region.ages;
    }
  }

  /** Counting one more region into the shared table adds its contribution. */
  lemma BatchTableStep(regions: seq<Region>, i: nat)
    requires i < |regions|
    ensures BatchTable(regions[..i + 1]) == AddAll(BatchTable(regions[..i]), Contribution(regions[i]))
  {
    assert regions[..i + 1] == regions[..i] + [regions[i]];
    CollectSnoc(Contribution, regions[..i], regions[i]);
    AddAllConcat(map[], BatchAges(regions[..i]), Contribution(regions[i]));
  }

  /**
   * top3Ages(String): counts the region into a fresh table and ranks it;
   * an invalid age or a failing close is a failure, a missing region an
   * empty answer.
   */
  method Top3Ages(region: Region) returns (answer: Answer)
    ensures region.NotFound? ==> answer == Top3([])
    ensures Fails(region) ==> answer == Failed(FaultOf(region))
    ensures region.Opened? && !Fails(region) ==>
              answer.Top3? && Top3Lines(CountOfEachAge(region.ages), answer.lines)
  {
    var ageCountMap := new AgeCountMap();
    match region
    case NotFound =>
      answer := Top3([]);
    case Opened(ages, closeFails) =>
      var valid := CalculateCountOfEachAge(ages, ageCountMap);
      if !valid {
        answer := Failed(InvalidAge);
      } else {
        assert ages[..ValidPrefixLength(ages)] == ages;
        var top3Ages := GetTop3Ages(ageCountMap);
        if closeFails {
          answer := Failed(CloseFailure);
        } else {
          answer := Top3(top3Ages);
        }
      }
  }

  /**
   * top3Ages(List<String>): counts every region into one shared table, then
   * ranks it. A missing region contributes nothing; an invalid age or a
   * failing close in any region makes the whole call fail once all regions
   * have been counted.
   */
  method Top3AgesOfRegions(regions: seq<Region>) returns (answer: Answer)
    ensures answer.Failed? <==> exists i :: 0 <= i < |regions| && Fails(regions[i])
    ensures answer.Failed? ==>
              exists i :: 0 <= i < |regions| && Fails(regions[i]) && answer.fault == FaultOf(regions[i])
                       && forall j :: 0 <= j < i ==> !Fails(regions[j])
    ensures answer.Top3? ==> Top3Lines(BatchTable(regions), answer.lines)
    ensures answer.Top3? ==> Top3Lines(SumOfRegionTables(regions), answer.lines)
  {
    var ageCountMap := new AgeCountMap();
    var failure: Option<Fault> := None;
    for i := 0 to |regions|
      invariant ageCountMap.counts == BatchTable(regions[..i])
      invariant failure == BatchFault(regions[..i])
    {
      BatchTableStep(regions, i);
      assert regions[..i + 1][..i] == regions[..i];
      match regions[i]
      case NotFound =>
        // the runtime error is swallowed: the region adds nothing
      case Opened(ages, closeFails) =>
        var valid := CalculateCountOfEachAge(ages, ageCountMap);
        if failure.None? && !valid {
          failure := Some(InvalidAge);
        } else if failure.None? && closeFails {
          failure := Some(CloseFailure);
        }
    }
    assert regions[..|regions|] == regions;
    BatchFaultIsFirstFailure(regions);
    if failure.Some? {
      return Failed(failure.value);
    }
    var top3Ages := GetTop3Ages(ageCountMap);
    BatchTableIsSumOfRegionTables(regions);
    return Top3(top3Ages);
  }
}

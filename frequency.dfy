/**
 * The frequency accumulator: the table from age to the number of times the
 * age was seen, the increment-or-insert step, and the loop that feeds one
 * region's ages into a shared table until it meets a negative age.
 */
module Frequency {

  /** The count recorded for `age`; zero when the table has no entry for it. */
  function CountOf(counts: map<int, nat>, age: int): nat
  {
    if age in counts then counts[age] else 0
  }

  /** One `merge(age, 1, Integer::sum)`: insert 1, or add 1 to the count already there. */
  function Increment(counts: map<int, nat>, age: int): map<int, nat>
  {
    counts[age := CountOf(counts, age) + 1]
  }

  /** The table after merging every element of `ages`, first to last, into `counts`. */
  function AddAll(counts: map<int, nat>, ages: seq<int>): map<int, nat>
  {
    if ages == [] then counts
    else Increment(AddAll(counts, ages[..|ages| - 1]), ages[|ages| - 1])
  }

  /** Merging a sequence adds, to every age, the number of times it occurs. */
  lemma {:induction false} AddAllCounts(counts: map<int, nat>, ages: seq<int>)
    ensures forall a :: a in AddAll(counts, ages) <==> a in counts || a in ages
    ensures forall a :: CountOf(AddAll(counts, ages), a) == CountOf(counts, a) + multiset(ages)[a]
  {
    if ages != [] {
      var init, last := ages[..|ages| - 1], ages[|ages| - 1];
      AddAllCounts(counts, init);
      assert ages == init + [last];
    }
  }

  /** Merging `s` and then `t` is merging `s + t`. */
  lemma {:induction false} AddAllConcat(counts: map<int, nat>, s: seq<int>, t: seq<int>)
    ensures AddAll(counts, s + t) == AddAll(AddAll(counts, s), t)
  {
    if t == [] {
      assert s + t == s;
    } else {
      assert (s + t)[..|s + t| - 1] == s + t[..|t| - 1];
      AddAllConcat(counts, s, t[..|t| - 1]);
    }
  }

  /** The table of one sequence of ages, built from an empty one. */
  function CountOfEachAge(ages: seq<int>): (table: map<int, nat>)
    ensures forall a :: a in table <==> a in ages
    ensures forall a :: a in table ==> 1 <= table[a] == multiset(ages)[a]
  {
    AddAllCounts(map[], ages);
    assert forall a :: a in ages ==> a in multiset(ages);
    AddAll(map[], ages)
  }

  /** Two sequences holding the same ages, in any order, give the same table. */
  lemma CountOfEachAgeIgnoresOrder(s: seq<int>, t: seq<int>)
    requires multiset(s) == multiset(t)
    ensures CountOfEachAge(s) == CountOfEachAge(t)
  {
    var u, v := CountOfEachAge(s), CountOfEachAge(t);
    forall a
      ensures a in s <==> a in t
    {
      assert a in s <==> a in multiset(s);
      assert a in t <==> a in multiset(t);
    }
    assert u.Keys == v.Keys;
  }

  /** Two tables merged age by age with `Integer::sum`. */
  function Plus(t: map<int, nat>, u: map<int, nat>): map<int, nat>
  {
    map a | a in t.Keys + u.Keys :: CountOf(t, a) + CountOf(u, a)
  }

  /** Merging a sequence into a table is adding that sequence's own table to it. */
  lemma AddAllIsPlus(counts: map<int, nat>, ages: seq<int>)
    ensures AddAll(counts, ages) == Plus(counts, CountOfEachAge(ages))
  {
    AddAllCounts(counts, ages);
    var left, right := AddAll(counts, ages), Plus(counts, CountOfEachAge(ages));
    assert left.Keys == right.Keys;
    forall a | a in left
      ensures left[a] == right[a]
    {
      assert CountOf(left, a) == CountOf(right, a);
    }
  }

  lemma {:induction false} HasElement(ages: set<int>)
    requires ages != {}
    ensures exists x :: x in ages
  {
    if forall x :: x !in ages {
      assert false;
    }
  }

  /** Some element of a non-empty set of ages. */
  ghost function Pick(ages: set<int>): (a: int)
    requires ages != {}
    ensures a in ages
  {
    HasElement(ages);
    var x :| x in ages;
    x
  }

  /** The sum of all the counts of a table. */
  ghost function Total(counts: map<int, nat>): nat
    decreases |counts|
  {
    if counts.Keys == {} then 0
    else
      var a := Pick(counts.Keys);
      counts[a] + Total(counts - {a})
  }

  /** The sum does not depend on which age is taken out first. */
  lemma {:induction false} TotalRemove(counts: map<int, nat>, a: int)
    requires a in counts
    ensures Total(counts) == counts[a] + Total(counts - {a})
    decreases |counts|
  {
    var x := Pick(counts.Keys);
    if x != a {
      TotalRemove(counts - {x}, a);
      TotalRemove(counts - {a}, x);
      assert counts - {x} - {a} == counts - {a} - {x};
    }
  }

  lemma TotalIncrement(counts: map<int, nat>, age: int)
    ensures Total(Increment(counts, age)) == Total(counts) + 1
  {
    var next := Increment(counts, age);
    TotalRemove(next, age);
    assert next - {age} == counts - {age};
    if age in counts {
      TotalRemove(counts, age);
    } else {
      assert counts - {age} == counts;
    }
  }

  /** Every merge adds exactly one to the sum of the counts. */
  lemma {:induction false} TotalAddAll(counts: map<int, nat>, ages: seq<int>)
    ensures Total(AddAll(counts, ages)) == Total(counts) + |ages|
  {
    if ages != [] {
      TotalAddAll(counts, ages[..|ages| - 1]);
      TotalIncrement(AddAll(counts, ages[..|ages| - 1]), ages[|ages| - 1]);
    }
  }

  /** The counts of one sequence's table add up to the length of the sequence. */
  lemma CountsSumToLength(ages: seq<int>)
    ensures Total(CountOfEachAge(ages)) == |ages|
  {
    TotalAddAll(map[], ages);
  }

  /** True when some element of `ages` is a negative, hence invalid, age. */
  predicate HasInvalidAge(ages: seq<int>)
  {
    exists i :: 0 <= i < |ages| && ages[i] < 0
  }

  /** How many ages are consumed before the first negative one: all of them when there is none. */
  function ValidPrefixLength(ages: seq<int>): (k: nat)
    ensures k <= |ages|
    ensures forall i :: 0 <= i < k ==> ages[i] >= 0
    ensures k < |ages| ==> ages[k] < 0
    ensures k == |ages| <==> !HasInvalidAge(ages)
  {
    if ages == [] || ages[0] < 0 then 0 else 1 + ValidPrefixLength(ages[1..])
  }

  /** The `ConcurrentMap<Integer, Integer>` shared by everything that counts ages in one call. */
  class AgeCountMap {
    var counts: map<int, nat>

    constructor ()
      ensures counts == map[]
    {
      counts := map[];
    }

    /** `merge(age, 1, Integer::sum)`. */
    method Merge(age: int)
      modifies this
      ensures counts == Increment(old(counts), age)
    {
      counts := Increment(counts, age);
    }
  }

  /**
   * Consumes `ages` in order, merging each one into the table; stops at the
   * first negative age and reports it (the IllegalArgumentException), keeping
   * the merges already made.
   */
  method CalculateCountOfEachAge(ages: seq<int>, ageCountMap: AgeCountMap) returns (valid: bool)
    modifies ageCountMap
    ensures valid <==> !HasInvalidAge(ages)
    ensures ageCountMap.counts == AddAll(old(ageCountMap.counts), ages[..ValidPrefixLength(ages)])
  {
    var i := 0;
    while i < |ages|
      invariant i <= ValidPrefixLength(ages)
      invariant ageCountMap.counts == AddAll(old(ageCountMap.counts), ages[..i])
    {
      var age := ages[i];
      if age >= 0 {
        ageCountMap.Merge(age);
      } else {
        return false;
      }
      assert ages[..i + 1][..i] == ages[..i];
      i := i + 1;
    }
    assert ages[..i] == ages;
    return true;
  }
}

/** The processing helpers: first-wins de-duplication, the composite identity key,
    the category of an offer, the median, and the per-class median filter. */
module CarsUtils {
  import opened Wrappers
  import opened Text
  import opened Seqs
  import opened RealSort
  import opened Cars
  import opened Categories
  import opened Suppliers

  // ---------------------------------------------------------------------------
  // removeDuplicates

  /** The first-wins de-duplication, one input element at a time: an element is
      appended exactly when no element kept so far has its key. */
  function Dedupe<T>(xs: seq<T>, key: T -> string): (r: seq<T>)
    decreases |xs|
  {
    if xs == [] then []
    else
      var n := |xs| - 1;
      var kept := Dedupe(xs[..n], key);
      if key(xs[n]) in KeysOf(kept, key) then kept else kept + [xs[n]]
  }

  /** Position i holds the first occurrence of its key in xs. */
  predicate FirstOfKey<T>(xs: seq<T>, key: T -> string, i: int)
    requires 0 <= i < |xs|
  {
    forall j :: 0 <= j < i ==> key(xs[j]) != key(xs[i])
  }

  function FirstMask<T>(xs: seq<T>, key: T -> string): (keep: seq<bool>)
    ensures |keep| == |xs|
  {
    seq(|xs|, i requires 0 <= i < |xs| => FirstOfKey(xs, key, i))
  }

  /** removeDuplicates: a LinkedHashMap filled with putIfAbsent keeps, for each key, the first
      item seen, in the order the keys were first seen; here the map's key set is `seen`
      and its values, in insertion order, are `unique`. */
  method RemoveDuplicates<T>(items: seq<T>, key: T -> string) returns (unique: seq<T>)
    ensures unique == Select(items, FirstMask(items, key))
    ensures unique == Dedupe(items, key)
  {
    var seen: set<string> := {};
    unique := [];
    var i := 0;
    while i < |items|
      invariant 0 <= i <= |items|
      invariant unique == Dedupe(items[..i], key)
      invariant seen == KeysOf(unique, key)
    {
      var item := items[i];
      assert items[..i + 1][..i] == items[..i];
      if key(item) !in seen {
        KeysOfSnoc(unique, item, key);
        unique := unique + [item];
        seen := seen + {key(item)};
      }
      i := i + 1;
    }
    assert items[..i] == items;
    DedupeFirstWins(items, key);
  }

  /** The output has exactly the keys of the input, each once. */
  lemma {:induction false} DedupeKeys<T>(xs: seq<T>, key: T -> string)
    ensures KeysOf(Dedupe(xs, key), key) == KeysOf(xs, key)
    ensures UniqueKeys(Dedupe(xs, key), key)
    decreases |xs|
  {
    if xs != [] {
      var n := |xs| - 1;
      var kept := Dedupe(xs[..n], key);
      DedupeKeys(xs[..n], key);
      assert xs == xs[..n] + [xs[n]];
      KeysOfSnoc(xs[..n], xs[n], key);
      if key(xs[n]) !in KeysOf(kept, key) {
        KeysOfSnoc(kept, xs[n], key);
        var r := kept + [xs[n]];
        forall i, j | 0 <= i < j < |r|
          ensures key(r[i]) != key(r[j])
        {
          assert r[i] == kept[i];
          if j < |kept| {
            assert r[j] == kept[j];
          } else {
            assert key(kept[i]) in KeysOf(kept, key);
          }
        }
      }
    }
  }

  /** Dropping the last element leaves the first-occurrence flags of the others unchanged. */
  lemma FirstMaskPrefix<T>(xs: seq<T>, key: T -> string)
    requires xs != []
    ensures FirstMask(xs, key)[..|xs| - 1] == FirstMask(xs[..|xs| - 1], key)
  {
    var n := |xs| - 1;
    forall i | 0 <= i < n
      ensures FirstOfKey(xs, key, i) == FirstOfKey(xs[..n], key, i)
    {
      assert forall j :: 0 <= j < i ==> xs[..n][j] == xs[j];
    }
  }

  /** The last element is the first of its key exactly when no earlier element has that key. */
  lemma FirstMaskLast<T>(xs: seq<T>, key: T -> string)
    requires xs != []
    ensures FirstMask(xs, key)[|xs| - 1] <==> key(xs[|xs| - 1]) !in KeysOf(xs[..|xs| - 1], key)
  {
    var n := |xs| - 1;
    if key(xs[n]) in KeysOf(xs[..n], key) {
      var j :| 0 <= j < n && key(xs[..n][j]) == key(xs[n]);
      assert key(xs[j]) == key(xs[n]);
    } else {
      forall j | 0 <= j < n
        ensures key(xs[j]) != key(xs[n])
      {
        assert key(xs[..n][j]) in KeysOf(xs[..n], key);
      }
    }
  }

  /** The output is the input with every element dropped whose key occurred earlier:
      the first element for each key is kept, in first-encounter order. */
  lemma {:induction false} DedupeFirstWins<T>(xs: seq<T>, key: T -> string)
    ensures Dedupe(xs, key) == Select(xs, FirstMask(xs, key))
    decreases |xs|
  {
    if xs != [] {
      var n := |xs| - 1;
      var mask := FirstMask(xs, key);
      DedupeFirstWins(xs[..n], key);
      DedupeKeys(xs[..n], key);
      FirstMaskPrefix(xs, key);
      FirstMaskLast(xs, key);
      assert Select(xs, mask) == Select(xs[..n], mask[..n]) + (if mask[n] then [xs[n]] else []);
    }
  }

  /** removeDuplicates keeps the order of what it keeps. */
  lemma DedupeIsSubsequence<T>(xs: seq<T>, key: T -> string)
    ensures IsSubsequence(Dedupe(xs, key), xs)
  {
    DedupeFirstWins(xs, key);
  }

  /** A sequence whose keys are already distinct passes through unchanged. */
  lemma {:induction false} DedupeOfUnique<T>(xs: seq<T>, key: T -> string)
    requires UniqueKeys(xs, key)
    ensures Dedupe(xs, key) == xs
    decreases |xs|
  {
    if xs != [] {
      var n := |xs| - 1;
      assert UniqueKeys(xs[..n], key);
      DedupeOfUnique(xs[..n], key);
      forall k | k in KeysOf(xs[..n], key)
        ensures k != key(xs[n])
      {
        var j :| 0 <= j < n && key(xs[..n][j]) == k;
        assert key(xs[j]) != key(xs[n]);
      }
      assert xs[..n] + [xs[n]] == xs;
    }
  }

  /** Applying removeDuplicates twice is the same as applying it once. */
  lemma DedupeIdempotent<T>(xs: seq<T>, key: T -> string)
    ensures Dedupe(Dedupe(xs, key), key) == Dedupe(xs, key)
  {
    DedupeKeys(xs, key);
    DedupeOfUnique(Dedupe(xs, key), key);
  }

  /** The output is never longer than the input, and is exactly as long when the keys of the
      input are already distinct. */
  lemma {:induction false} DedupeLength<T>(xs: seq<T>, key: T -> string)
    ensures |Dedupe(xs, key)| <= |xs|
    ensures |Dedupe(xs, key)| == |xs| <==> UniqueKeys(xs, key)
    decreases |xs|
  {
    if xs != [] {
      var n := |xs| - 1;
      var kept := Dedupe(xs[..n], key);
      DedupeLength(xs[..n], key);
      DedupeKeys(xs[..n], key);
      if |Dedupe(xs, key)| == |xs| {
        assert kept + [xs[n]] == Dedupe(xs, key);
        assert UniqueKeys(xs[..n], key);
        DedupeOfUnique(xs[..n], key);
        forall i, j | 0 <= i < j < |xs|
          ensures key(xs[i]) != key(xs[j])
        {
          if j < n {
            assert xs[..n][i] == xs[i] && xs[..n][j] == xs[j];
          } else {
            assert key(xs[..n][i]) in KeysOf(xs[..n], key);
          }
        }
      }
      if UniqueKeys(xs, key) {
        DedupeOfUnique(xs, key);
      }
    }
  }

  // ---------------------------------------------------------------------------
  // compositeKey and categoryOf

  /** compositeKey: supplierName, description, sippCode and fuelPolicy joined by '|'. */
  function CompositeKey(car: CarResult): string {
    Render(car.supplierName) + "|" + Render(car.description) + "|" + Render(car.sippCode) + "|"
      + FuelPolicyName(car.fuelPolicy)
  }

  /** categoryOf: the category of the offer's SIPP code. */
  function CategoryOf(car: CarResult): Category {
    FromSipp(car.sippCode)
  }

  /** Equal offers (in the sense of equals()) have equal keys: the cost takes no part. */
  lemma CompositeKeyOfSameIdentity(a: CarResult, b: CarResult)
    requires SameIdentity(a, b)
    ensures CompositeKey(a) == CompositeKey(b)
  {
  }

  /** A field that can be joined with '|' without ambiguity: non-null and free of '|'. */
  predicate KeySafe(s: JString) {
    s.Str? && '|' !in s.chars
  }

  /** The position of the first '|' in w, or |w| when there is none. */
  function IndexOfBar(w: string): (k: nat)
    ensures k <= |w|
  {
    if w == [] then 0
    else if w[0] == '|' then 0
    else 1 + IndexOfBar(w[1..])
  }

  lemma {:induction false} IndexOfBarJoin(s: string, r: string)
    requires '|' !in s
    ensures IndexOfBar(s + "|" + r) == |s|
    decreases |s|
  {
    if s != [] {
      assert (s + "|" + r)[1..] == s[1..] + "|" + r;
      IndexOfBarJoin(s[1..], r);
    }
  }

  /** Joining with a separator that neither left part contains can be undone. */
  lemma SplitAtBar(s1: string, r1: string, s2: string, r2: string)
    requires '|' !in s1 && '|' !in s2
    requires s1 + "|" + r1 == s2 + "|" + r2
    ensures s1 == s2 && r1 == r2
  {
    var w := s1 + "|" + r1;
    IndexOfBarJoin(s1, r1);
    IndexOfBarJoin(s2, r2);
    assert s1 == w[..|s1|] == s2;
    assert r1 == w[|s1| + 1..] == r2;
  }

  /** Four parts joined by '|', the first three free of '|', can be recovered from the join. */
  lemma SplitFourAtBars(s1: string, d1: string, p1: string, f1: string,
                        s2: string, d2: string, p2: string, f2: string)
    requires '|' !in s1 && '|' !in d1 && '|' !in p1
    requires '|' !in s2 && '|' !in d2 && '|' !in p2
    requires s1 + "|" + d1 + "|" + p1 + "|" + f1 == s2 + "|" + d2 + "|" + p2 + "|" + f2
    ensures s1 == s2 && d1 == d2 && p1 == p2 && f1 == f2
  {
    assert s1 + "|" + d1 + "|" + p1 + "|" + f1 == s1 + "|" + (d1 + "|" + (p1 + "|" + f1));
    assert s2 + "|" + d2 + "|" + p2 + "|" + f2 == s2 + "|" + (d2 + "|" + (p2 + "|" + f2));
    SplitAtBar(s1, d1 + "|" + (p1 + "|" + f1), s2, d2 + "|" + (p2 + "|" + f2));
    SplitAtBar(d1, p1 + "|" + f1, d2, p2 + "|" + f2);
    SplitAtBar(p1, f1, p2, f2);
  }

  /** On offers whose text fields are non-null and free of '|', equal keys mean equal offers. */
  lemma CompositeKeyInjective(a: CarResult, b: CarResult)
    requires KeySafe(a.supplierName) && KeySafe(a.description) && KeySafe(a.sippCode)
    requires KeySafe(b.supplierName) && KeySafe(b.description) && KeySafe(b.sippCode)
    ensures CompositeKey(a) == CompositeKey(b) <==> SameIdentity(a, b)
  {
    if CompositeKey(a) == CompositeKey(b) {
      SplitFourAtBars(a.supplierName.chars, a.description.chars, a.sippCode.chars, FuelPolicyName(a.fuelPolicy),
                      b.supplierName.chars, b.description.chars, b.sippCode.chars, FuelPolicyName(b.fuelPolicy));
      FuelPolicyNameInjective(a.fuelPolicy, b.fuelPolicy);
    }
  }

  /** Without that restriction the key is ambiguous: a '|' inside a field, or a null field
      against the text "null", gives different offers the same key. */
  lemma CompositeKeyCollisions()
    ensures var a := CarResult(Str("C"), Str("A|B"), Str("MDMR"), 10.0, FullFull);
            var b := CarResult(Str("B|C"), Str("A"), Str("MDMR"), 10.0, FullFull);
            CompositeKey(a) == CompositeKey(b) && !SameIdentity(a, b)
    ensures var a := CarResult(Null, Str("SIXT"), Str("MDMR"), 10.0, FullFull);
            var b := CarResult(Str("null"), Str("SIXT"), Str("MDMR"), 10.0, FullFull);
            CompositeKey(a) == CompositeKey(b) && !SameIdentity(a, b)
  {
  }

  /** The scenario of the de-duplication unit test: the later offer with the same identity
      and a different cost is dropped, and the first one's cost kept. */
  lemma RemoveDuplicatesScenario()
    ensures var car1 := CarResult(Str("A"), Str("SUP"), Str("CDMR"), 10.0, FullFull);
            var duplicate := CarResult(Str("A"), Str("SUP"), Str("CDMR"), 20.0, FullFull);
            var car2 := CarResult(Str("B"), Str("OTH"), Str("EDMR"), 30.0, FullEmpty);
            Dedupe([car1, duplicate, car2], CompositeKey) == [car1, car2]
  {
    var car1 := CarResult(Str("A"), Str("SUP"), Str("CDMR"), 10.0, FullFull);
    var duplicate := CarResult(Str("A"), Str("SUP"), Str("CDMR"), 20.0, FullFull);
    var car2 := CarResult(Str("B"), Str("OTH"), Str("EDMR"), 30.0, FullEmpty);
    var xs := [car1, duplicate, car2];
    assert xs[..2] == [car1, duplicate] && xs[..2][..1] == [car1] && [car1][..0] == [];
    assert Dedupe([car1], CompositeKey) == [car1];
    assert CompositeKey(duplicate) == CompositeKey(car1);
    assert CompositeKey(car1) in KeysOf([car1], CompositeKey);
    assert Dedupe(xs[..2], CompositeKey) == [car1];
    assert CompositeKey(car2)[0] != CompositeKey(car1)[0];
    assert KeysOf([car1], CompositeKey) == {CompositeKey(car1)};
  }

  // ---------------------------------------------------------------------------
  // median

  const EmptyListMessage: string := "List must not be null or empty"

  /** The median of a sorted copy: its middle element for an odd count, the mean of its
      two middle elements for an even count. */
  function Middle(sorted: seq<real>): real
    requires sorted != []
  {
    var n := |sorted|;
    if n % 2 == 1 then sorted[n / 2] else (sorted[n / 2 - 1] + sorted[n / 2]) / 2.0
  }

  /** The value median returns, or the exception it throws on an empty list. */
  function MedianOf(values: seq<real>): (r: Result<real, string>)
    ensures r.Failure? <==> values == []
    ensures r.Failure? ==> r.error == EmptyListMessage
  {
    if values == [] then Failure(EmptyListMessage) else Success(Middle(SortSeq(values)))
  }

  /** median: copies the values into a fresh array, sorts the copy in place and reads the
      middle of it. The caller's sequence is a value and is left as it was. */
  method Median(values: seq<real>) returns (r: Result<real, string>)
    ensures r == MedianOf(values)
  {
    if |values| == 0 {
      return Failure(EmptyListMessage);
    }
    var sorted := new real[|values|](i requires 0 <= i < |values| => values[i]);
    assert sorted[..] == values;
    SortInPlace(sorted);
    MedianOfAnySortedCopy(values, sorted[..]);
    r := MiddleOfSorted(sorted);
  }

  /** The indexing step of median on the sorted copy. */
  method MiddleOfSorted(sorted: array<real>) returns (r: Result<real, string>)
    requires sorted.Length > 0
    ensures r == Success(Middle(sorted[..]))
  {
    var n := sorted.Length;
    if n % 2 == 1 {
      r := Success(sorted[n / 2]);
    } else {
      r := Success((sorted[n / 2 - 1] + sorted[n / 2]) / 2.0);
    }
  }

  /** Whatever sorting produced the ascending copy, the median is the middle of it. */
  lemma MedianOfAnySortedCopy(values: seq<real>, sorted: seq<real>)
    requires Sorted(sorted) && multiset(sorted) == multiset(values)
    requires values != []
    ensures sorted != [] && MedianOf(values) == Success(Middle(sorted))
  {
    SortedUnique(sorted, SortSeq(values));
  }

  /** The median does not depend on the order of the values. */
  lemma MedianOrderIndependent(a: seq<real>, b: seq<real>)
    requires multiset(a) == multiset(b)
    ensures MedianOf(a) == MedianOf(b)
  {
    SortedUnique(SortSeq(a), SortSeq(b));
    assert |a| == |multiset(a)| == |multiset(b)| == |b|;
  }

  /** The median lies between the least and the greatest value. */
  lemma MedianWithinRange(values: seq<real>)
    requires values != []
    ensures exists i :: 0 <= i < |values| && values[i] <= MedianOf(values).value
    ensures exists j :: 0 <= j < |values| && MedianOf(values).value <= values[j]
  {
    var s := SortSeq(values);
    var n := |s|;
    var m := MedianOf(values).value;
    assert s[0] <= s[n / 2] && s[n / 2] <= s[n - 1];
    if n % 2 == 0 {
      assert s[0] <= s[n / 2 - 1] && s[n / 2 - 1] <= s[n - 1];
    }
    assert s[0] <= m <= s[n - 1];
    assert s[0] in multiset(values) && s[n - 1] in multiset(values);
    var i :| 0 <= i < |values| && values[i] == s[0];
    var j :| 0 <= j < |values| && values[j] == s[n - 1];
  }

  /** The median read off a sorted copy given as its elements: the middle one for an odd
      count, the mean of the two middle ones for an even count. */
  lemma MedianOfSortedElements(values: seq<real>, sorted: seq<real>)
    requires values != [] && Sorted(sorted) && multiset(sorted) == multiset(values)
    ensures |sorted| % 2 == 1 ==> MedianOf(values) == Success(sorted[|sorted| / 2])
    ensures |sorted| % 2 == 0 ==> MedianOf(values) == Success((sorted[|sorted| / 2 - 1] + sorted[|sorted| / 2]) / 2.0)
  {
    MedianOfAnySortedCopy(values, sorted);
  }

  /** The odd-length value of the unit test. */
  lemma MedianOfOddExample(values: seq<real>)
    requires |values| == 3 && values[0] == 1.0 && values[1] == 3.0 && values[2] == 2.0
    ensures MedianOf(values) == Success(2.0)
  {
    var sorted := [values[0], values[2], values[1]];
    assert multiset(sorted) == multiset(values) by {
      assert values == [values[0]] + [values[1]] + [values[2]];
    }
    MedianOfSortedElements(values, sorted);
  }

  /** Moving the second of four elements to the end keeps the same multiset. */
  lemma MultisetRotateLastThree(s: seq<real>)
    requires |s| == 4
    ensures multiset([s[0], s[2], s[3], s[1]]) == multiset(s)
  {
    assert s == [s[0]] + [s[1]] + [s[2]] + [s[3]];
    assert [s[0], s[2], s[3], s[1]] == [s[0]] + [s[2]] + [s[3]] + [s[1]];
  }

  /** The even-length value of the unit test: the mean of the two middle values. */
  lemma MedianOfEvenExample(values: seq<real>)
    requires |values| == 4 && values[0] == 1.0 && values[1] == 4.0 && values[2] == 2.0 && values[3] == 3.0
    ensures MedianOf(values) == Success(2.5)
  {
    var sorted := [values[0], values[2], values[3], values[1]];
    MultisetRotateLastThree(values);
    MedianOfSortedElements(values, sorted);
  }

  /** Swapping the two elements of a pair keeps the same multiset. */
  lemma MultisetSwapPair(s: seq<real>)
    requires |s| == 2
    ensures multiset([s[1], s[0]]) == multiset(s)
  {
    assert s == [s[0]] + [s[1]];
    assert [s[1], s[0]] == [s[1]] + [s[0]];
  }

  /** The median of a pair whose sorted copy is [lo, hi] is their mean. */
  lemma MedianOfSortedPair(values: seq<real>, lo: real, hi: real)
    requires lo <= hi && multiset([lo, hi]) == multiset(values)
    ensures MedianOf(values) == Success((lo + hi) / 2.0)
  {
    assert |values| == |multiset(values)| == 2;
    MedianOfAnySortedCopy(values, [lo, hi]);
  }

  /** The median of a descending pair is read off the pair reversed. */
  lemma MedianOfDescendingPair(values: seq<real>)
    requires |values| == 2 && values[1] < values[0]
    ensures MedianOf(values) == Success((values[1] + values[0]) / 2.0)
  {
    MultisetSwapPair(values);
    MedianOfSortedPair(values, values[1], values[0]);
  }

  /** The median of two values is their mean, whichever comes first. */
  lemma MedianOfPair(values: seq<real>)
    requires |values| == 2
    ensures MedianOf(values) == Success((values[0] + values[1]) / 2.0)
  {
    if values[0] <= values[1] {
      MedianOfSortedElements(values, values);
    } else {
      MedianOfDescendingPair(values);
    }
  }

  /** The median of one value is that value. */
  lemma MedianOfSingle(values: seq<real>)
    requires |values| == 1
    ensures MedianOf(values) == Success(values[0])
  {
    MedianOfSortedElements(values, values);
  }

  // ---------------------------------------------------------------------------
  // filterFullAboveMedianPrice

  predicate IsCorporateCar(car: CarResult) {
    IsCorporate(car.supplierName)
  }

  predicate IsNonCorporateCar(car: CarResult) {
    !IsCorporate(car.supplierName)
  }

  /** The rental costs, in order. */
  function Costs(cars: seq<CarResult>): (costs: seq<real>)
    ensures |costs| == |cars|
    ensures forall i :: 0 <= i < |cars| ==> costs[i] == cars[i].rentalCost
  {
    seq(|cars|, i requires 0 <= i < |cars| => cars[i].rentalCost)
  }

  /** The median cost of a group, or None, standing for Double.POSITIVE_INFINITY, when the
      group is empty; median is never called on an empty list. A present threshold lies
      between the cheapest and the dearest offer of the group. */
  function MedianThreshold(group: seq<CarResult>): (threshold: Option<real>)
    ensures threshold.None? <==> group == []
    ensures group != [] ==> threshold == Some(MedianOf(Costs(group)).value)
    ensures group != [] ==>
      (exists i :: 0 <= i < |group| && group[i].rentalCost <= threshold.value) &&
      (exists j :: 0 <= j < |group| && threshold.value <= group[j].rentalCost)
  {
    if group == [] then None
    else
      MedianWithinRange(Costs(group));
      Some(MedianOf(Costs(group)).value)
  }

  /** cost > threshold, where an absent threshold is never exceeded. */
  predicate Exceeds(cost: real, threshold: Option<real>) {
    threshold.Some? && cost > threshold.value
  }

  /** The decision of the filter's lambda for one offer, given the two group medians. */
  predicate IsRemoved(car: CarResult, medianCorporate: Option<real>, medianNonCorporate: Option<real>) {
    var fullFull := car.fuelPolicy == FullFull;
    var threshold := if IsCorporateCar(car) then medianCorporate else medianNonCorporate;
    fullFull && Exceeds(car.rentalCost, threshold)
  }

  /** The filter's lambda itself: keeps every offer it does not remove. */
  function Kept(medianCorporate: Option<real>, medianNonCorporate: Option<real>): CarResult -> bool {
    car => !IsRemoved(car, medianCorporate, medianNonCorporate)
  }

  /** filterFullAboveMedianPrice: splits the offers into corporate and non-corporate, takes the
      median cost of each (unbounded for an empty group), then keeps, in input order, every offer
      that is not a FULLFULL one costing strictly more than its own group's median. */
  function FilterFullAboveMedianPrice(cars: seq<CarResult>): (r: seq<CarResult>)
    ensures |r| <= |cars|
  {
    var corporate := Filter(cars, IsCorporateCar);
    var nonCorporate := Filter(cars, IsNonCorporateCar);
    var medianCorporate := MedianThreshold(corporate);
    var medianNonCorporate := MedianThreshold(nonCorporate);
    Filter(cars, Kept(medianCorporate, medianNonCorporate))
  }

  /** The offers with the same supplier class as car, in input order. */
  function OwnGroup(cars: seq<CarResult>, car: CarResult): seq<CarResult> {
    Filter(cars, other => IsCorporateCar(other) == IsCorporateCar(car))
  }

  /** The median cost of car's own group within cars; that group holds car, so it is not empty. */
  function GroupMedian(cars: seq<CarResult>, car: CarResult): real
    requires car in cars
  {
    FilterMembership(cars, other => IsCorporateCar(other) == IsCorporateCar(car), car);
    MedianOf(Costs(OwnGroup(cars, car))).value
  }

  /** An offer the filter is to remove: FULLFULL and strictly dearer than the median of its
      own group. */
  predicate Overpriced(cars: seq<CarResult>, car: CarResult) {
    car.fuelPolicy == FullFull && Exceeds(car.rentalCost, MedianThreshold(OwnGroup(cars, car)))
  }

  lemma OwnGroupIsPartition(cars: seq<CarResult>, car: CarResult)
    ensures OwnGroup(cars, car) == if IsCorporateCar(car) then Filter(cars, IsCorporateCar)
                                   else Filter(cars, IsNonCorporateCar)
  {
    if IsCorporateCar(car) {
      FilterCongruent(cars, other => IsCorporateCar(other) == IsCorporateCar(car), IsCorporateCar);
    } else {
      FilterCongruent(cars, other => IsCorporateCar(other) == IsCorporateCar(car), IsNonCorporateCar);
    }
  }

  /** The filter removes exactly the overpriced offers: the result is an order-preserving
      subsequence of the input in which every other offer occurs as often as in the input. */
  lemma FilterFullAboveMedianPriceRemovesOverpriced(cars: seq<CarResult>)
    ensures IsSubsequence(FilterFullAboveMedianPrice(cars), cars)
    ensures forall car :: multiset(FilterFullAboveMedianPrice(cars))[car] ==
                          if Overpriced(cars, car) then 0 else multiset(cars)[car]
  {
    var medianCorporate := MedianThreshold(Filter(cars, IsCorporateCar));
    var medianNonCorporate := MedianThreshold(Filter(cars, IsNonCorporateCar));
    var keep := Kept(medianCorporate, medianNonCorporate);
    assert FilterFullAboveMedianPrice(cars) == Filter(cars, keep);
    FilterIsSubsequence(cars, keep);
    forall car
      ensures multiset(Filter(cars, keep))[car] == if Overpriced(cars, car) then 0 else multiset(cars)[car]
    {
      OwnGroupIsPartition(cars, car);
      FilterCount(cars, keep, car);
    }
  }

  /** Offers with the other fuel policy are never removed, and neither is an offer whose cost
      is at most its group's median. */
  lemma FilterFullAboveMedianPriceKeeps(cars: seq<CarResult>, car: CarResult)
    requires car in cars
    requires car.fuelPolicy == FullEmpty || car.rentalCost <= GroupMedian(cars, car)
    ensures car in FilterFullAboveMedianPrice(cars)
  {
    FilterFullAboveMedianPriceRemovesOverpriced(cars);
    FilterMembership(cars, other => IsCorporateCar(other) == IsCorporateCar(car), car);
    assert multiset(cars)[car] > 0;
  }

  /** Every FULLFULL offer the filter retains costs at most its own group's median. */
  lemma FilterFullAboveMedianPriceBound(cars: seq<CarResult>)
    ensures forall car :: car in FilterFullAboveMedianPrice(cars) && car.fuelPolicy == FullFull ==>
              car in cars && car.rentalCost <= GroupMedian(cars, car)
  {
    FilterFullAboveMedianPriceRemovesOverpriced(cars);
    forall car | car in FilterFullAboveMedianPrice(cars) && car.fuelPolicy == FullFull
      ensures car in cars && car.rentalCost <= GroupMedian(cars, car)
    {
      assert multiset(FilterFullAboveMedianPrice(cars))[car] > 0;
      FilterMembership(cars, other => IsCorporateCar(other) == IsCorporateCar(car), car);
    }
  }

  /** Once the two group medians are known, the filter is the filter's lambda over the input. */
  lemma FilterWithThresholds(cars: seq<CarResult>, medianCorporate: Option<real>, medianNonCorporate: Option<real>)
    requires MedianThreshold(Filter(cars, IsCorporateCar)) == medianCorporate
    requires MedianThreshold(Filter(cars, IsNonCorporateCar)) == medianNonCorporate
    ensures FilterFullAboveMedianPrice(cars) == Filter(cars, Kept(medianCorporate, medianNonCorporate))
  {
  }

  /** The grouping scenario: of two corporate FULLFULL offers at 10 and 40 the dearer one goes
      (median 25), while a lone non-corporate FULLFULL offer at 30 is its own group's median and
      stays, although it costs more than the corporate median. */
  lemma FilterByGroup(corpLow: CarResult, corpHigh: CarResult, nonCorp: CarResult)
    requires IsCorporateCar(corpLow) && IsCorporateCar(corpHigh) && !IsCorporateCar(nonCorp)
    requires corpLow.fuelPolicy == corpHigh.fuelPolicy == nonCorp.fuelPolicy == FullFull
    requires corpLow.rentalCost == 10.0 && corpHigh.rentalCost == 40.0 && nonCorp.rentalCost == 30.0
    ensures FilterFullAboveMedianPrice([corpLow, corpHigh, nonCorp]) == [corpLow, nonCorp]
  {
    var cars := [corpLow, corpHigh, nonCorp];
    var medianCorporate, medianNonCorporate := Some(25.0), Some(30.0);
    var keep := Kept(medianCorporate, medianNonCorporate);
    assert FilterFullAboveMedianPrice(cars) == Filter(cars, keep) by {
      var corporate, nonCorporate := [corpLow, corpHigh], [nonCorp];
      FilterTriple(corpLow, corpHigh, nonCorp, IsCorporateCar);
      FilterTriple(corpLow, corpHigh, nonCorp, IsNonCorporateCar);
      assert Filter(cars, IsCorporateCar) == corporate;
      assert Filter(cars, IsNonCorporateCar) == nonCorporate;
      MedianOfPair(Costs(corporate));
      MedianOfSingle(Costs(nonCorporate));
      FilterWithThresholds(cars, medianCorporate, medianNonCorporate);
    }
    assert Filter(cars, keep) == [corpLow, nonCorp] by {
      assert keep(corpLow) && !keep(corpHigh) && keep(nonCorp);
      FilterTriple(corpLow, corpHigh, nonCorp, keep);
    }
  }

  /** The fuel scenario: of two corporate offers at 100 and 50 (median 75) the FULLEMPTY one
      stays although it is dearer, and so does the FULLFULL one below the median. */
  lemma KeepsNonFullFull(corpEmpty: CarResult, corpFull: CarResult)
    requires IsCorporateCar(corpEmpty) && IsCorporateCar(corpFull)
    requires corpEmpty.fuelPolicy == FullEmpty && corpFull.fuelPolicy == FullFull
    requires corpEmpty.rentalCost == 100.0 && corpFull.rentalCost == 50.0
    ensures FilterFullAboveMedianPrice([corpEmpty, corpFull]) == [corpEmpty, corpFull]
  {
    var cars := [corpEmpty, corpFull];
    FilterPair(corpEmpty, corpFull, IsCorporateCar);
    FilterPair(corpEmpty, corpFull, IsNonCorporateCar);
    assert Filter(cars, IsCorporateCar) == cars;
    assert Filter(cars, IsNonCorporateCar) == [];
    MedianOfPair(Costs(cars));
    var medianCorporate, medianNonCorporate := Some(75.0), None;
    FilterWithThresholds(cars, medianCorporate, medianNonCorporate);
    var keep := Kept(medianCorporate, medianNonCorporate);
    assert keep(corpEmpty) && keep(corpFull);
    FilterPair(corpEmpty, corpFull, keep);
  }

  /** The scenario without corporate offers: the corporate median is unbounded, and of two
      non-corporate FULLFULL offers at 20 and 25 (median 22.5) the dearer one goes. */
  lemma NoCorporateOffers(n1: CarResult, n2: CarResult)
    requires !IsCorporateCar(n1) && !IsCorporateCar(n2)
    requires n1.fuelPolicy == n2.fuelPolicy == FullFull
    requires n1.rentalCost == 20.0 && n2.rentalCost == 25.0
    ensures FilterFullAboveMedianPrice([n1, n2]) == [n1]
  {
    var cars := [n1, n2];
    FilterPair(n1, n2, IsCorporateCar);
    FilterPair(n1, n2, IsNonCorporateCar);
    assert Filter(cars, IsCorporateCar) == [];
    assert Filter(cars, IsNonCorporateCar) == cars;
    MedianOfPair(Costs(cars));
    var medianCorporate, medianNonCorporate := None, Some(22.5);
    FilterWithThresholds(cars, medianCorporate, medianNonCorporate);
    var keep := Kept(medianCorporate, medianNonCorporate);
    assert keep(n1) && !keep(n2);
    FilterPair(n1, n2, keep);
  }

  /** The three scenarios with the unit test's suppliers: SIXT and AVIS are corporate, NIZA is not. */
  lemma FilterScenarios()
    ensures var corpLow := CarResult(Str("A"), Str("SIXT"), Str("MDMR"), 10.0, FullFull);
            var corpHigh := CarResult(Str("B"), Str("SIXT"), Str("MDMR"), 40.0, FullFull);
            var nonCorp := CarResult(Str("C"), Str("NIZA"), Str("EDMR"), 30.0, FullFull);
            FilterFullAboveMedianPrice([corpLow, corpHigh, nonCorp]) == [corpLow, nonCorp]
    ensures var corpEmpty := CarResult(Str("A"), Str("AVIS"), Str("MDMR"), 100.0, FullEmpty);
            var corpFull := CarResult(Str("B"), Str("AVIS"), Str("MDMR"), 50.0, FullFull);
            FilterFullAboveMedianPrice([corpEmpty, corpFull]) == [corpEmpty, corpFull]
    ensures var n1 := CarResult(Str("A"), Str("NIZA"), Str("MDMR"), 20.0, FullFull);
            var n2 := CarResult(Str("B"), Str("NIZA"), Str("MDMR"), 25.0, FullFull);
            FilterFullAboveMedianPrice([n1, n2]) == [n1]
  {
    SixtIsCorporate();
    AvisIsCorporate();
    NizaIsNotCorporate();
    FilterByGroup(CarResult(Str("A"), Str("SIXT"), Str("MDMR"), 10.0, FullFull),
                  CarResult(Str("B"), Str("SIXT"), Str("MDMR"), 40.0, FullFull),
                  CarResult(Str("C"), Str("NIZA"), Str("EDMR"), 30.0, FullFull));
    KeepsNonFullFull(CarResult(Str("A"), Str("AVIS"), Str("MDMR"), 100.0, FullEmpty),
                     CarResult(Str("B"), Str("AVIS"), Str("MDMR"), 50.0, FullFull));
    NoCorporateOffers(CarResult(Str("A"), Str("NIZA"), Str("MDMR"), 20.0, FullFull),
                      CarResult(Str("B"), Str("NIZA"), Str("MDMR"), 25.0, FullFull));
  }
}

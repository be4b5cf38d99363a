/** process(Set<CarResult>): de-duplicate by composite key, put corporate offers before
    non-corporate ones, and within each class list the categories in declaration order, each
    category sorted by rental cost with a stable sort. The set is taken as a sequence in its
    enumeration order. */
module AssessmentRunner {
  import opened Seqs
  import opened Cars
  import opened Categories
  import opened CarsUtils

  /** The CATEGORIES list: every category, in declaration order. */
  const CategoryOrder: seq<Category> := Categories.Values

  // ---------------------------------------------------------------------------
  // The stable cost sort

  /** The offers of one category. */
  function InCategory(cat: Category): CarResult -> bool {
    car => CategoryOf(car) == cat
  }

  /** Non-decreasing rental cost along the sequence. */
  predicate CostSorted(s: seq<CarResult>) {
    forall i, j :: 0 <= i < j < |s| ==> s[i].rentalCost <= s[j].rentalCost
  }

  /** Inserts car after every offer that costs no more than it, so that of two offers with
      equal cost the one inserted first stays first. */
  function InsertByCost(s: seq<CarResult>, car: CarResult): (r: seq<CarResult>)
    ensures multiset(r) == multiset(s) + multiset{car}
  {
    if s == [] || car.rentalCost < s[0].rentalCost then [car] + s
    else
      assert s == [s[0]] + s[1..];
      [s[0]] + InsertByCost(s[1..], car)
  }

  /** An inserted sequence holds the new offer and the old ones, nothing else. */
  lemma InsertByCostMember(s: seq<CarResult>, car: CarResult, y: CarResult)
    requires y in InsertByCost(s, car)
    ensures y == car || y in s
  {
    assert y in multiset(InsertByCost(s, car));
  }

  lemma {:induction false} InsertByCostSorted(s: seq<CarResult>, car: CarResult)
    requires CostSorted(s)
    ensures CostSorted(InsertByCost(s, car))
  {
    if s != [] && car.rentalCost >= s[0].rentalCost {
      InsertByCostSorted(s[1..], car);
      var r := InsertByCost(s, car);
      var rest := InsertByCost(s[1..], car);
      assert r == [s[0]] + rest;
      forall x | x in rest ensures s[0].rentalCost <= x.rentalCost {
        InsertByCostMember(s[1..], car, x);
        if x != car {
          CostSortedHeadIsLeast(s, x);
        }
      }
      forall i, j | 0 <= i < j < |r| ensures r[i].rentalCost <= r[j].rentalCost {
        if i == 0 {
          assert r[j] == rest[j - 1];
        }
      }
    }
  }

  /** sorted(Comparator.comparingDouble(CarResult::getRentalCost)): an insertion sort that
      inserts the elements in encounter order. */
  function SortByCost(s: seq<CarResult>): (r: seq<CarResult>)
    ensures multiset(r) == multiset(s)
    ensures |r| == |s|
    ensures CostSorted(r)
    decreases |s|
  {
    if s == [] then []
    else
      var n := |s| - 1;
      assert s == s[..n] + [s[n]];
      InsertByCostSorted(SortByCost(s[..n]), s[n]);
      InsertByCost(SortByCost(s[..n]), s[n])
  }

  /** The head of a cost-sorted sequence is one of its cheapest offers. */
  lemma CostSortedHeadIsLeast(s: seq<CarResult>, x: CarResult)
    requires CostSorted(s) && x in s
    ensures s[0].rentalCost <= x.rentalCost
  {
    var k :| 0 <= k < |s| && s[k] == x;
    assert k == 0 || s[0].rentalCost <= s[k].rentalCost;
  }

  /** Placing car in front of a sorted sequence of dearer offers appends it to the offers of
      its own cost, which are then none. */
  lemma InsertInFrontStable(s: seq<CarResult>, car: CarResult, q: CarResult -> bool, v: real)
    requires CostSorted(s) && s != [] && car.rentalCost < s[0].rentalCost
    requires forall x :: q(x) ==> x.rentalCost == v
    ensures Filter([car] + s, q) == Filter(s, q) + (if q(car) then [car] else [])
  {
    FilterSingleton(car, q);
    FilterAppend([car], s, q);
    if q(car) {
      forall x | x in s ensures !q(x) {
        CostSortedHeadIsLeast(s, x);
      }
      FilterNone(s, q);
    }
  }

  /** Inserting car leaves the offers of one cost v in their order, with car last among them. */
  lemma {:induction false} InsertByCostStable(s: seq<CarResult>, car: CarResult, q: CarResult -> bool, v: real)
    requires CostSorted(s)
    requires forall x :: q(x) ==> x.rentalCost == v
    ensures Filter(InsertByCost(s, car), q) == Filter(s, q) + (if q(car) then [car] else [])
  {
    if s == [] {
      FilterSingleton(car, q);
    } else if car.rentalCost < s[0].rentalCost {
      InsertInFrontStable(s, car, q, v);
    } else {
      InsertByCostStable(s[1..], car, q, v);
      InsertBehindHeadStable(s, car, q, if q(car) then [car] else []);
    }
  }

  /** When car goes behind the head, what the filter appends to the tail it appends to s. */
  lemma InsertBehindHeadStable(s: seq<CarResult>, car: CarResult, q: CarResult -> bool, extra: seq<CarResult>)
    requires s != [] && car.rentalCost >= s[0].rentalCost
    requires Filter(InsertByCost(s[1..], car), q) == Filter(s[1..], q) + extra
    ensures Filter(InsertByCost(s, car), q) == Filter(s, q) + extra
  {
    InsertByCostBehindHead(s, car);
    FilterConsExtended(s, InsertByCost(s[1..], car), q, extra);
  }

  /** An offer no cheaper than the head is inserted into the tail. */
  lemma InsertByCostBehindHead(s: seq<CarResult>, car: CarResult)
    requires s != [] && car.rentalCost >= s[0].rentalCost
    ensures InsertByCost(s, car) == [s[0]] + InsertByCost(s[1..], car)
  {
  }

  /** The cost sort is stable: the offers of any one cost keep their relative order. */
  lemma {:induction false} SortByCostStable(s: seq<CarResult>, q: CarResult -> bool, v: real)
    requires forall x :: q(x) ==> x.rentalCost == v
    ensures Filter(SortByCost(s), q) == Filter(s, q)
    decreases |s|
  {
    if s != [] {
      var n := |s| - 1;
      SortByCostStable(s[..n], q, v);
      InsertByCostStable(SortByCost(s[..n]), s[n], q, v);
    }
  }

  // ---------------------------------------------------------------------------
  // Grouping by category

  /** One step of the flatMap: the offers of category cat, sorted by cost. */
  function SortCategory(part: seq<CarResult>, cat: Category): seq<CarResult> {
    SortByCost(Filter(part, InCategory(cat)))
  }

  /** CATEGORIES.stream().flatMap(cat -> part filtered to cat and sorted by cost). */
  function ByCategory(part: seq<CarResult>, cats: seq<Category>): seq<CarResult> {
    if cats == [] then [] else SortCategory(part, cats[0]) + ByCategory(part, cats[1..])
  }

  /** Categories listed with strictly increasing rank, hence each at most once. */
  predicate RankedCategories(cats: seq<Category>) {
    forall i, j :: 0 <= i < j < |cats| ==> Ordinal(cats[i]) < Ordinal(cats[j])
  }

  lemma CategoryOrderRanked()
    ensures RankedCategories(CategoryOrder)
    ensures forall c :: c in CategoryOrder
  {
    ValuesOrdered();
  }

  /** Picking out the offers of one category and cost from the grouped sequence gives the
      same offers, in the same order, as picking them out of the partition itself. */
  lemma {:induction false} ByCategoryStable(part: seq<CarResult>, cats: seq<Category>, q: CarResult -> bool,
                                            cat: Category, v: real)
    requires RankedCategories(cats)
    requires forall x :: q(x) ==> CategoryOf(x) == cat && x.rentalCost == v
    ensures Filter(ByCategory(part, cats), q) == if cat in cats then Filter(part, q) else []
  {
    if cats != [] {
      var c := cats[0];
      FilterAppend(SortCategory(part, c), ByCategory(part, cats[1..]), q);
      SortCategoryStable(part, c, q, cat, v);
      assert cat in cats <==> c == cat || cat in cats[1..];
      RankedTail(cats);
      ByCategoryStable(part, cats[1..], q, cat, v);
    }
  }

  /** The step of the flatMap for category c holds the offers picked by q, in partition
      order, when c is their category, and none of them otherwise. */
  lemma SortCategoryStable(part: seq<CarResult>, c: Category, q: CarResult -> bool, cat: Category, v: real)
    requires forall x :: q(x) ==> CategoryOf(x) == cat && x.rentalCost == v
    ensures Filter(SortCategory(part, c), q) == if c == cat then Filter(part, q) else []
  {
    SortByCostStable(Filter(part, InCategory(c)), q, v);
    if c == cat {
      FilterFilter(part, q, InCategory(c));
    } else {
      FilterDisjoint(part, q, InCategory(c));
    }
  }

  /** Every category after the first ranks above it. */
  lemma RankedTail(cats: seq<Category>)
    requires cats != [] && RankedCategories(cats)
    ensures RankedCategories(cats[1..])
    ensures forall c :: c in cats[1..] ==> Ordinal(cats[0]) < Ordinal(c)
  {
    forall k | 0 <= k < |cats| - 1 ensures Ordinal(cats[0]) < Ordinal(cats[1..][k]) {
      assert cats[1..][k] == cats[k + 1];
    }
  }

  /** One step of the flatMap holds offers of the partition with the given category. */
  lemma SortCategoryMembers(part: seq<CarResult>, cat: Category, x: CarResult)
    requires x in SortCategory(part, cat)
    ensures x in part && CategoryOf(x) == cat
  {
    assert x in multiset(Filter(part, InCategory(cat)));
    FilterMembership(part, InCategory(cat), x);
  }

  /** Every offer of the grouped sequence comes from the partition and has a listed category. */
  lemma {:induction false} ByCategoryMembers(part: seq<CarResult>, cats: seq<Category>, x: CarResult)
    requires x in ByCategory(part, cats)
    ensures x in part && CategoryOf(x) in cats
  {
    var c := cats[0];
    if x in SortCategory(part, c) {
      SortCategoryMembers(part, c, x);
    } else {
      ByCategoryMembers(part, cats[1..], x);
    }
  }

  // ---------------------------------------------------------------------------
  // process

  /** The de-duplicated offers of one supplier class. */
  function Partition(cars: seq<CarResult>, corporate: bool): seq<CarResult> {
    var unique := Dedupe(cars, CompositeKey);
    if corporate then Filter(unique, IsCorporateCar) else Filter(unique, IsNonCorporateCar)
  }

  /** process(Set): the corporate offers grouped by category and sorted by cost, followed by
      the non-corporate offers arranged the same way. */
  function Process(cars: seq<CarResult>): seq<CarResult> {
    ByCategory(Partition(cars, true), CategoryOrder) + ByCategory(Partition(cars, false), CategoryOrder)
  }

  /** The order the output is to follow: corporate before non-corporate, then category rank,
      then cost. */
  predicate InOutputOrder(a: CarResult, b: CarResult) {
    if IsCorporateCar(a) != IsCorporateCar(b) then IsCorporateCar(a)
    else if CategoryOf(a) != CategoryOf(b) then Ordinal(CategoryOf(a)) < Ordinal(CategoryOf(b))
    else a.rentalCost <= b.rentalCost
  }

  predicate Arranged(s: seq<CarResult>) {
    forall i, j :: 0 <= i < j < |s| ==> InOutputOrder(s[i], s[j])
  }

  lemma ArrangedAppend(a: seq<CarResult>, b: seq<CarResult>)
    requires Arranged(a) && Arranged(b)
    requires forall x, y :: x in a && y in b ==> InOutputOrder(x, y)
    ensures Arranged(a + b)
  {
    forall i, j | 0 <= i < j < |a + b| ensures InOutputOrder((a + b)[i], (a + b)[j]) {
      if j < |a| {
        assert (a + b)[i] == a[i] && (a + b)[j] == a[j];
      } else if i >= |a| {
        assert (a + b)[i] == b[i - |a|] && (a + b)[j] == b[j - |a|];
      } else {
        assert (a + b)[i] in a && (a + b)[j] in b;
      }
    }
  }

  /** Within one supplier class, the grouped sequence follows the output order. */
  lemma {:induction false} ByCategoryArranged(part: seq<CarResult>, cats: seq<Category>, corporate: bool)
    requires RankedCategories(cats)
    requires forall x :: x in part ==> IsCorporateCar(x) == corporate
    ensures Arranged(ByCategory(part, cats))
  {
    if cats != [] {
      var c := cats[0];
      var head := SortCategory(part, c);
      var tail := ByCategory(part, cats[1..]);
      RankedTail(cats);
      ByCategoryArranged(part, cats[1..], corporate);
      assert Arranged(head) by {
        forall i, j | 0 <= i < j < |head| ensures InOutputOrder(head[i], head[j]) {
          SortCategoryMembers(part, c, head[i]);
          SortCategoryMembers(part, c, head[j]);
        }
      }
      forall x, y | x in head && y in tail ensures InOutputOrder(x, y) {
        SortCategoryMembers(part, c, x);
        ByCategoryMembers(part, cats[1..], y);
      }
      ArrangedAppend(head, tail);
    }
  }

  /** The output follows the output order: corporate offers first, then, within each class,
      non-decreasing category rank, and within a class and category non-decreasing cost. */
  lemma ProcessArranged(cars: seq<CarResult>)
    ensures Arranged(Process(cars))
    ensures forall i, j :: 0 <= i < j < |Process(cars)| && !IsCorporateCar(Process(cars)[i]) ==>
              !IsCorporateCar(Process(cars)[j])
    ensures forall i, j :: (0 <= i < j < |Process(cars)| &&
              IsCorporateCar(Process(cars)[i]) == IsCorporateCar(Process(cars)[j])) ==>
              Ordinal(CategoryOf(Process(cars)[i])) <= Ordinal(CategoryOf(Process(cars)[j]))
    ensures forall i, j :: (0 <= i < j < |Process(cars)| &&
              IsCorporateCar(Process(cars)[i]) == IsCorporateCar(Process(cars)[j]) &&
              CategoryOf(Process(cars)[i]) == CategoryOf(Process(cars)[j])) ==>
              Process(cars)[i].rentalCost <= Process(cars)[j].rentalCost
  {
    CategoryOrderRanked();
    var corporate, nonCorporate := Partition(cars, true), Partition(cars, false);
    var unique := Dedupe(cars, CompositeKey);
    forall x | x in corporate ensures IsCorporateCar(x) {
      FilterMembership(unique, IsCorporateCar, x);
    }
    forall x | x in nonCorporate ensures !IsCorporateCar(x) {
      FilterMembership(unique, IsNonCorporateCar, x);
    }
    ByCategoryArranged(corporate, CategoryOrder, true);
    ByCategoryArranged(nonCorporate, CategoryOrder, false);
    forall x, y | x in ByCategory(corporate, CategoryOrder) && y in ByCategory(nonCorporate, CategoryOrder)
      ensures InOutputOrder(x, y)
    {
      ByCategoryMembers(corporate, CategoryOrder, x);
      ByCategoryMembers(nonCorporate, CategoryOrder, y);
    }
    ArrangedAppend(ByCategory(corporate, CategoryOrder), ByCategory(nonCorporate, CategoryOrder));
  }

  /** Picking out any offers that agree on supplier class, category and cost gives the same
      sequence from the output as from the de-duplicated input. */
  lemma ProcessFilter(cars: seq<CarResult>, q: CarResult -> bool, corporate: bool, cat: Category, v: real)
    requires forall x :: q(x) ==> IsCorporateCar(x) == corporate && CategoryOf(x) == cat && x.rentalCost == v
    ensures Filter(Process(cars), q) == Filter(Dedupe(cars, CompositeKey), q)
  {
    CategoryOrderRanked();
    var unique := Dedupe(cars, CompositeKey);
    FilterAppend(ByCategory(Partition(cars, true), CategoryOrder), ByCategory(Partition(cars, false), CategoryOrder), q);
    ByCategoryStable(Partition(cars, true), CategoryOrder, q, cat, v);
    ByCategoryStable(Partition(cars, false), CategoryOrder, q, cat, v);
    if corporate {
      FilterFilter(unique, q, IsCorporateCar);
      FilterDisjoint(unique, q, IsNonCorporateCar);
    } else {
      FilterDisjoint(unique, q, IsCorporateCar);
      FilterFilter(unique, q, IsNonCorporateCar);
    }
  }

  /** The offers with one sort key: supplier class, category and cost. */
  function HasSortKey(corporate: bool, cat: Category, cost: real): CarResult -> bool {
    car => IsCorporateCar(car) == corporate && CategoryOf(car) == cat && car.rentalCost == cost
  }

  /** The sort is stable: offers with equal class, category and cost appear in the order in
      which the de-duplication kept them. */
  lemma ProcessStable(cars: seq<CarResult>, corporate: bool, cat: Category, cost: real)
    ensures Filter(Process(cars), HasSortKey(corporate, cat, cost)) ==
            Filter(Dedupe(cars, CompositeKey), HasSortKey(corporate, cat, cost))
  {
    ProcessFilter(cars, HasSortKey(corporate, cat, cost), corporate, cat, cost);
  }

  /** Exactly one offer. */
  function Is(car: CarResult): CarResult -> bool {
    x => x == car
  }

  /** The output is a permutation of the de-duplicated input: the category list covers every
      category, so no unique offer is lost and none is repeated. */
  lemma ProcessIsPermutation(cars: seq<CarResult>)
    ensures multiset(Process(cars)) == multiset(Dedupe(cars, CompositeKey))
  {
    var unique := Dedupe(cars, CompositeKey);
    forall car ensures multiset(Process(cars))[car] == multiset(unique)[car] {
      ProcessFilter(cars, Is(car), IsCorporateCar(car), CategoryOf(car), car.rentalCost);
      FilterCount(Process(cars), Is(car), car);
      FilterCount(unique, Is(car), car);
    }
  }

  /** No two output offers share a composite key, so no two are equal in the sense of
      equals(); and the output is no longer than the input. */
  lemma ProcessUniqueKeys(cars: seq<CarResult>)
    ensures UniqueKeys(Process(cars), CompositeKey)
    ensures forall i, j :: 0 <= i < j < |Process(cars)| ==> !SameIdentity(Process(cars)[i], Process(cars)[j])
    ensures |Process(cars)| <= |cars|
  {
    var out := Process(cars);
    ProcessIsPermutation(cars);
    DedupeKeys(cars, CompositeKey);
    UniqueKeysPermutation(out, Dedupe(cars, CompositeKey), CompositeKey);
    forall i, j | 0 <= i < j < |out| ensures !SameIdentity(out[i], out[j]) {
      if SameIdentity(out[i], out[j]) {
        CompositeKeyOfSameIdentity(out[i], out[j]);
      }
    }
    assert |out| == |multiset(out)|;
    DedupeLength(cars, CompositeKey);
  }

  /** No offers in, no offers out. */
  lemma ProcessEmpty()
    ensures Process([]) == []
  {
    assert Dedupe([], CompositeKey) == [];
    CategoryOrderRanked();
    assert ByCategory([], CategoryOrder) == [] by {
      ByCategoryEmpty(CategoryOrder);
    }
  }

  lemma {:induction false} ByCategoryEmpty(cats: seq<Category>)
    ensures ByCategory([], cats) == []
  {
    if cats != [] {
      ByCategoryEmpty(cats[1..]);
    }
  }
}

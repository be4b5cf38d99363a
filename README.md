# Car-offer processing pipeline, modelled in Dafny

This project models the core of a car-rental offer pipeline. The core:

- removes duplicate offers, keeping the first offer for each composite key;
- splits offers into corporate suppliers (an allow-list enum) and the rest;
- groups each class by SIPP category in the order MINI, ECONOMY, COMPACT, OTHER;
- sorts each group by rental cost with a stable sort;
- can optionally drop every FULLFULL offer priced strictly above its own class's median.

The model is written in the shape of the Java code:

| file | module | models |
|---|---|---|
| `wrappers.dfy` | `Wrappers` | `Option` and `Result` |
| `text.dfy` | `Text` | nullable Java strings (`JString`), `toUpperCase`, `isBlank`, string concatenation of `null` |
| `seqs.dfy` | `Seqs` | `Stream.filter(...).toList()` as `Filter`; subsequences; key sets |
| `car_result.dfy` | `Cars` | `CarResult` and `FuelPolicy`; the field-based `equals` |
| `category.dfy` | `Categories` | `Category` and `fromSipp` |
| `supplier.dfy` | `Suppliers` | `Supplier` and `isCorporate` |
| `real_sort.dfy` | `RealSort` | `Collections.sort` on doubles: an in-place insertion sort on an array, and its sequence specification |
| `cars_utils.dfy` | `CarsUtils` | `removeDuplicates`, `compositeKey`, `categoryOf`, `median`, `filterFullAboveMedianPrice` |
| `assessment_runner.dfy` | `AssessmentRunner` | `process(Set<CarResult>)` |

How the Java constructs are modelled:

- `removeDuplicates` is a method with a loop. A seen-key set and an output sequence stand in for the `LinkedHashMap`. The method is proved equal to the left-recursive specification `Dedupe` and to a selection by a "first of its key" mask.
- `median` is a method. It copies the values into an array, sorts the array in place and reads the middle. It is proved equal to the pure `MedianOf`, which every lemma uses.
- The stream pipelines of `filterFullAboveMedianPrice` and `process` have no mutable state, so they are functions.
- `Double.POSITIVE_INFINITY`, the threshold of an empty class, is `None`.
- The `Set<CarResult>` given to `process` is a sequence in its enumeration order. It may hold offers with equal keys.
- `IllegalArgumentException` from `median` is a `Failure` carrying the exception's message.
- Supplier names are matched after upper-casing, as the code at `Supplier.java` line 27 does, so the match ignores case.

## Model

Paths are relative to the repository root.

| member | source | states |
|---|---|---|
| Text.ToUpper | src/main/java/com/cartrawler/assessment/enums/Supplier.java:27 | upper-casing keeps the length and upper-cases each character: lower-case ASCII letters map to 'A'..'Z', every other character is unchanged |
| Text.ToUpperIdempotent | src/main/java/com/cartrawler/assessment/enums/Supplier.java:27 | upper-casing an upper-cased name changes nothing |
| Text.ToUpperKeepsBlank | src/main/java/com/cartrawler/assessment/enums/Category.java:26-27 | a string is blank exactly when its upper-cased form is |
| Cars.SameIdentity | src/main/java/com/cartrawler/assessment/car/CarResult.java:7-25 | equals() on the `CarResult` record compares supplier name, description, SIPP code and fuel policy; `SameIdentityIgnoresCost` and `SameIdentityEquivalence` characterise it |
| Cars.SameIdentityIgnoresCost | src/main/java/com/cartrawler/assessment/car/CarResult.java:7 | two offers are equal exactly when they agree on every field once the cost is ignored |
| Cars.SameIdentityEquivalence | src/main/java/com/cartrawler/assessment/car/CarResult.java:7 | equality on offers is reflexive, symmetric and transitive |
| Cars.FuelPolicyNameInjective | src/main/java/com/cartrawler/assessment/car/CarResult.java:15-17 | two fuel policies print the same name exactly when they are the same policy |
| Categories.ValuesOrdered | src/main/java/com/cartrawler/assessment/enums/Category.java:5-8 | values() ranks MINI < ECONOMY < COMPACT < OTHER by ordinal and contains every category |
| Categories.FirstWithPrefix | src/main/java/com/cartrawler/assessment/enums/Category.java:28-30 | the loop returns a listed category whose prefix is the letter; it finds none exactly when no listed category has that prefix |
| Categories.OtherNeverMatched | src/main/java/com/cartrawler/assessment/enums/Category.java:8-29 | OTHER's null prefix never matches; the loop finds nothing exactly when the letter is not M, E or C |
| Categories.FromSipp | src/main/java/com/cartrawler/assessment/enums/Category.java:25-32 | fromSipp: `FromSippByFirstLetter`, `FromSippCaseInsensitive` and `FromSippFirstCharOnly` state what it returns |
| Categories.FromSippByFirstLetter | src/main/java/com/cartrawler/assessment/enums/Category.java:25-32 | null or blank codes give OTHER; otherwise the upper-cased first character decides: M gives MINI, E gives ECONOMY, C gives COMPACT, anything else gives OTHER |
| Categories.FromSippCaseInsensitive | src/main/java/com/cartrawler/assessment/enums/Category.java:27 | upper-casing the code does not change its category |
| Categories.FromSippFirstCharOnly | src/main/java/com/cartrawler/assessment/enums/Category.java:27 | every two non-empty codes whose first characters agree up to case have the same category |
| Categories.FromSippExamples | src/test/java/com/cartrawler/assessment/util/CarsUtilsTest.java:35-38 | MDMR, EDMR, CDMR and XDMR map to MINI, ECONOMY, COMPACT and OTHER; lower case, empty, blank and null codes behave as specified |
| Suppliers.AllDeclaredCorporate | src/main/java/com/cartrawler/assessment/enums/Supplier.java:8-14 | every declared supplier is corporate and its name is on the allow-list |
| Suppliers.ValueOf | src/main/java/com/cartrawler/assessment/enums/Supplier.java:27 | Supplier.valueOf: `ValueOfFindsAllowList` states that it succeeds exactly on the allow-listed names |
| Suppliers.IsCorporate | src/main/java/com/cartrawler/assessment/enums/Supplier.java:22-31 | isCorporate: `IsCorporateIff` and `IsCorporateCaseInsensitive` state when it holds |
| Suppliers.Lookup | src/main/java/com/cartrawler/assessment/enums/Supplier.java:27 | valueOf returns a constant with exactly that name, or none when no constant has it |
| Suppliers.ValueOfFindsAllowList | src/main/java/com/cartrawler/assessment/enums/Supplier.java:27-29 | valueOf succeeds exactly for the seven allow-listed names, and returns the constant of that name |
| Suppliers.IsCorporateIff | src/main/java/com/cartrawler/assessment/enums/Supplier.java:22-31 | a null name is not corporate; any other name is corporate exactly when its upper-cased form is on the allow-list |
| Suppliers.IsCorporateCaseInsensitive | src/main/java/com/cartrawler/assessment/enums/Supplier.java:27 | upper-casing a supplier name does not change whether it is corporate |
| Suppliers.SixtIsCorporate | src/test/java/com/cartrawler/assessment/util/CarsUtilsTest.java:49 | SIXT is corporate |
| Suppliers.LowerSixtIsCorporate | src/main/java/com/cartrawler/assessment/enums/Supplier.java:27 | "sixt" in lower case is corporate too |
| Suppliers.NizaIsNotCorporate | src/test/java/com/cartrawler/assessment/util/CarsUtilsTest.java:52 | NIZA is not corporate, and neither is a null name |
| Suppliers.AvisIsCorporate | src/test/java/com/cartrawler/assessment/util/CarsUtilsTest.java:61 | AVIS is corporate |
| RealSort.SortSeq | src/main/java/com/cartrawler/assessment/util/CarsUtils.java:106-107 | the specification of the sort: a sorted permutation of the values |
| RealSort.InsertSorted | src/main/java/com/cartrawler/assessment/util/CarsUtils.java:107 | inserting into a sorted sequence keeps it sorted |
| RealSort.SortedUnique | src/main/java/com/cartrawler/assessment/util/CarsUtils.java:107 | two sorted permutations of the same values are equal, so the median does not depend on the sorting algorithm |
| RealSort.SortInPlace | src/main/java/com/cartrawler/assessment/util/CarsUtils.java:107 | the array ends sorted and holds the same multiset of values |
| CarsUtils.Dedupe | src/main/java/com/cartrawler/assessment/util/CarsUtils.java:23-32 | the first-wins de-duplication that `RemoveDuplicates` is proved equal to; `DedupeFirstWins`, `DedupeKeys` and `DedupeLength` characterise it |
| CarsUtils.RemoveDuplicates | src/main/java/com/cartrawler/assessment/util/CarsUtils.java:23-32 | the loop keeps exactly the first item of each key, in encounter order, and equals the specification Dedupe |
| CarsUtils.DedupeKeys | src/main/java/com/cartrawler/assessment/util/CarsUtils.java:27-31 | the output has the same key set as the input, and no key twice |
| CarsUtils.DedupeFirstWins | src/main/java/com/cartrawler/assessment/util/CarsUtils.java:29 | an item is kept exactly when no earlier item has its key |
| CarsUtils.DedupeIsSubsequence | src/main/java/com/cartrawler/assessment/util/CarsUtils.java:27-31 | the output is an order-preserving subsequence of the input |
| CarsUtils.DedupeOfUnique | src/main/java/com/cartrawler/assessment/util/CarsUtils.java:29 | input whose keys are already distinct is returned unchanged |
| CarsUtils.DedupeIdempotent | src/main/java/com/cartrawler/assessment/util/CarsUtils.java:27-31 | de-duplicating twice gives the same result as once |
| CarsUtils.DedupeLength | src/main/java/com/cartrawler/assessment/util/CarsUtils.java:27-31 | the output is no longer than the input, and as long exactly when the input keys are distinct |
| CarsUtils.RemoveDuplicatesScenario | src/test/java/com/cartrawler/assessment/util/CarsUtilsTest.java:23-30 | [car1, its dearer duplicate, car2] becomes [car1, car2] |
| CarsUtils.CompositeKey | src/main/java/com/cartrawler/assessment/util/CarsUtils.java:38-43 | compositeKey: `CompositeKeyOfSameIdentity`, `CompositeKeyInjective` and `CompositeKeyCollisions` state when two offers share a key |
| CarsUtils.CategoryOf | src/main/java/com/cartrawler/assessment/util/CarsUtils.java:48-50 | categoryOf: the category `FromSipp` gives the offer's SIPP code |
| CarsUtils.CompositeKeyOfSameIdentity | src/main/java/com/cartrawler/assessment/util/CarsUtils.java:38-43 | equal offers have equal composite keys; the cost takes no part |
| CarsUtils.CompositeKeyInjective | src/main/java/com/cartrawler/assessment/util/CarsUtils.java:38-43 | for non-null fields without the separator bar, equal keys mean equal offers, and conversely |
| CarsUtils.CompositeKeyCollisions | src/main/java/com/cartrawler/assessment/util/CarsUtils.java:38-43 | a separator bar inside a field, or a null field beside the text "null", makes different offers share a key |
| CarsUtils.MedianOf | src/main/java/com/cartrawler/assessment/util/CarsUtils.java:102-105 | the median fails, with the exception's message, exactly on empty input |
| CarsUtils.Median | src/main/java/com/cartrawler/assessment/util/CarsUtils.java:102-114 | copy, sort in place and read the middle: the result equals the specification MedianOf |
| CarsUtils.MedianOfAnySortedCopy | src/main/java/com/cartrawler/assessment/util/CarsUtils.java:106-113 | the median is the middle of any sorted rearrangement of the values |
| CarsUtils.MedianOrderIndependent | src/main/java/com/cartrawler/assessment/util/CarsUtils.java:106-107 | reordering the values does not change the median |
| CarsUtils.MedianWithinRange | src/main/java/com/cartrawler/assessment/util/CarsUtils.java:108-113 | the median lies between the smallest and the largest value |
| CarsUtils.MedianOfOddExample | src/test/java/com/cartrawler/assessment/util/CarsUtilsTest.java:43 | the median of [1, 3, 2] is 2 |
| CarsUtils.MedianOfEvenExample | src/test/java/com/cartrawler/assessment/util/CarsUtilsTest.java:44 | the median of [1, 4, 2, 3] is 2.5 |
| CarsUtils.MedianOfPair | src/main/java/com/cartrawler/assessment/util/CarsUtils.java:112 | the median of two values is their mean, in either order |
| CarsUtils.MedianOfSingle | src/main/java/com/cartrawler/assessment/util/CarsUtils.java:110 | the median of one value is that value |
| CarsUtils.Costs | src/main/java/com/cartrawler/assessment/util/CarsUtils.java:71-73 | the costs, position by position |
| CarsUtils.MedianThreshold | src/main/java/com/cartrawler/assessment/util/CarsUtils.java:69-79 | an empty class has no threshold (positive infinity); any other class has its cost median, which lies between the cost of its cheapest and its dearest offer |
| CarsUtils.OwnGroupIsPartition | src/main/java/com/cartrawler/assessment/util/CarsUtils.java:61-66 | an offer's own class is the corporate filter for a corporate offer and the non-corporate filter otherwise |
| CarsUtils.FilterFullAboveMedianPrice | src/main/java/com/cartrawler/assessment/util/CarsUtils.java:59-96 | filterFullAboveMedianPrice: the result is never longer than the input; `FilterFullAboveMedianPriceRemovesOverpriced`, `…Keeps` and `…Bound` state what it keeps |
| CarsUtils.FilterFullAboveMedianPriceRemovesOverpriced | src/main/java/com/cartrawler/assessment/util/CarsUtils.java:82-95 | the result is an order-preserving subsequence; an offer is dropped exactly when it is FULLFULL and dearer than its class median, and every other offer keeps all its occurrences |
| CarsUtils.FilterFullAboveMedianPriceKeeps | src/main/java/com/cartrawler/assessment/util/CarsUtils.java:84-87 | FULLEMPTY offers, and offers at or below their class median, are kept |
| CarsUtils.FilterFullAboveMedianPriceBound | src/main/java/com/cartrawler/assessment/util/CarsUtils.java:84-87 | every FULLFULL offer that is kept costs at most its class median |
| CarsUtils.FilterByGroup | src/test/java/com/cartrawler/assessment/util/CarsUtilsTest.java:48-57 | corporate FULLFULL offers at 10 and 40 and a non-corporate one at 30 give [10, 30] |
| CarsUtils.KeepsNonFullFull | src/test/java/com/cartrawler/assessment/util/CarsUtilsTest.java:60-67 | a corporate FULLEMPTY offer at 100 and a FULLFULL one at 50 are both kept |
| CarsUtils.NoCorporateOffers | src/test/java/com/cartrawler/assessment/util/CarsUtilsTest.java:70-76 | with no corporate offer, non-corporate FULLFULL offers at 20 and 25 give [20] |
| CarsUtils.FilterScenarios | src/test/java/com/cartrawler/assessment/util/CarsUtilsTest.java:48-76 | the three filter scenarios hold for the test's SIXT, AVIS and NIZA offers |
| AssessmentRunner.InsertByCost | src/main/java/com/cartrawler/assessment/car/AssessmentRunner.java:48 | one insertion step of the cost sort adds exactly the inserted offer |
| AssessmentRunner.InsertByCostSorted | src/main/java/com/cartrawler/assessment/car/AssessmentRunner.java:48 | inserting into a cost-sorted sequence keeps it cost-sorted |
| AssessmentRunner.SortByCost | src/main/java/com/cartrawler/assessment/car/AssessmentRunner.java:48 | the cost sort returns a permutation of its input with non-decreasing cost |
| AssessmentRunner.InsertByCostStable | src/main/java/com/cartrawler/assessment/car/AssessmentRunner.java:48 | an insertion places the new offer after every earlier offer of equal cost |
| AssessmentRunner.SortByCostStable | src/main/java/com/cartrawler/assessment/car/AssessmentRunner.java:48 | the sort is stable: offers of one cost keep their input order |
| AssessmentRunner.CategoryOrderRanked | src/main/java/com/cartrawler/assessment/car/AssessmentRunner.java:25 | the category list has strictly increasing rank and contains every category |
| AssessmentRunner.ByCategoryStable | src/main/java/com/cartrawler/assessment/car/AssessmentRunner.java:45-53 | the offers of one category and cost come out of the flatMap in the order they had in the class, or not at all when the category is not listed |
| AssessmentRunner.ByCategoryMembers | src/main/java/com/cartrawler/assessment/car/AssessmentRunner.java:45-53 | every offer the flatMap yields comes from the class and has a listed category |
| AssessmentRunner.ByCategoryArranged | src/main/java/com/cartrawler/assessment/car/AssessmentRunner.java:45-53 | within one class, the flatMap yields non-decreasing category rank, and cost order within a category |
| AssessmentRunner.SortCategory | src/main/java/com/cartrawler/assessment/car/AssessmentRunner.java:46-48 | one flatMap step: the class's offers of one category, sorted by cost with `SortByCost` |
| AssessmentRunner.ByCategory | src/main/java/com/cartrawler/assessment/car/AssessmentRunner.java:45-53 | the flatMap over the category list: `ByCategoryStable`, `ByCategoryMembers` and `ByCategoryArranged` characterise it |
| AssessmentRunner.Partition | src/main/java/com/cartrawler/assessment/car/AssessmentRunner.java:34-42 | the de-duplicated offers of one class, in de-duplication order |
| AssessmentRunner.Process | src/main/java/com/cartrawler/assessment/car/AssessmentRunner.java:32-57 | process: `ProcessArranged`, `ProcessIsPermutation`, `ProcessStable` and `ProcessUniqueKeys` pin down its output |
| AssessmentRunner.ProcessArranged | src/main/java/com/cartrawler/assessment/car/AssessmentRunner.java:37-56 | corporate offers come first; within a class category rank never decreases; within a class and category cost never decreases |
| AssessmentRunner.ProcessFilter | src/main/java/com/cartrawler/assessment/car/AssessmentRunner.java:34-56 | offers that agree on class, category and cost appear in the output in the order the de-duplication kept them |
| AssessmentRunner.ProcessStable | src/main/java/com/cartrawler/assessment/car/AssessmentRunner.java:46-48 | the sort is stable for each sort key (class, category, cost) |
| AssessmentRunner.ProcessIsPermutation | src/main/java/com/cartrawler/assessment/car/AssessmentRunner.java:34-55 | the output is a permutation of the de-duplicated input: no unique offer is lost or repeated |
| AssessmentRunner.ProcessUniqueKeys | src/main/java/com/cartrawler/assessment/car/AssessmentRunner.java:34 | no two output offers share a composite key or are equal, and the output is no longer than the input |
| AssessmentRunner.ProcessEmpty | src/main/java/com/cartrawler/assessment/car/AssessmentRunner.java:32-56 | empty input gives empty output |

## Left out

- The no-argument `AssessmentRunner.process()`, the Spring Boot command-line runner, `CarDataProvider` and `Display` are left out. They load data, log sizes and render output, and their code is not part of this model.
- Logging in `filterFullAboveMedianPrice` is left out: it writes to the log and changes no result.
- Doubles are modelled as `real`. NaN, negative zero, `Double.compare` ordering and the rounding of `(a + b) / 2.0` are left out.
- `toUpperCase` and `isBlank` are modelled on ASCII characters only, without locale or Unicode case mapping.
- `HashSet` iteration order is not modelled: the input to `process` is a sequence in whatever order the set enumerates.
- `CarResult.toString` and `Category.label` are left out. No modelled operation uses them.
- CarsUtils.MedianOf: a `null` list cannot be modelled, because a sequence is never null. The empty list is modelled and fails with the same message.
- A `null` offer in the input collection is not modelled. `compositeKey` dereferences every offer, at `CarsUtils.java` lines 29 and 39, so such an input throws `NullPointerException`; an offer in the model is never null.
- A `null` fuel policy is not modelled. `FuelPolicy` is a two-valued datatype, so `compositeKey` always prints a policy name.
- CarsUtils.CompositeKeyInjective: the key identifies an offer only when no field is null and no field contains the separator bar. The model proves that case and exhibits collisions outside it.
- AssessmentRunner.ProcessUniqueKeys: the output is proved no longer than the input, not strictly shorter. The strict shrink asserted in `AssessmentRunnerTest.java` at line 28 depends on loaded data that is not part of this model.
- The assertion in `AssessmentRunnerTest.java` at line 46, that the output starts with a corporate offer and contains a non-corporate one, also depends on the loaded data. It is not modelled.
- `CarsUtilsTest.java` at line 27 calls `removeDuplicates` with one argument, but the method takes two. The scenario is modelled with the composite key as the key function.

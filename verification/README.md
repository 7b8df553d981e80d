# Constrained collections, modelled in Dafny

This project models four small collection utilities. Each one wraps a plain
container and enforces one invariant on every change:

- **FixedOrderComparator** (module `Comparators`, `fixed_order_comparator.dfy`). A comparator that ranks elements in the
  order they are presented. `addAsEqual` can alias one element to another's rank. The first
  `compare` locks the comparator for good. Elements it has never seen are placed before or
  after the known ones, or rejected, depending on a policy flag.
- **ListPopulation** (module `Genetics`, `list_population.dfy`). A list of chromosomes whose size never exceeds a
  population limit. It also finds the fittest chromosome by a linear scan.
- **PredicatedMap** (module `Maps`, `predicated_map.dfy`). A map decorator that checks every pair against an
  optional key predicate and an optional value predicate before the pair reaches the
  decorated map. Bulk insertion is all-or-nothing.
- **FilterIterator** (module `Iterators`, `filter_iterator.dfy`). An iterator that lets through only the elements a
  predicate accepts, with a one-element lookahead cache.

`results.dfy` holds the shared `Option` and `Result` types. A Java method that returns
normally or throws becomes a function returning `Ok(value)` or `Err(exception)`, and a
nullable argument becomes an `Option`. Every component is an immutable datatype, and every
operation returns the new state. The FilterIterator's decorated iterator is modelled as a
cursor over a sequence (`Inner`): the elements, the position of the next one, and whether
`remove` is allowed, which is the `java.util.Iterator` contract.

Points where the model follows the code's exact behaviour where the Javadoc leaves it open:

- The Javadoc of `compare` promises only a negative, zero or positive result for two known
  elements. The code returns `Integer.compareTo` of the two positions, which is exactly -1, 0
  or 1, and the model returns that sign.
- The Javadoc of the `ListPopulation(list, limit)` constructor lists three exceptions without
  an order. The code checks for a null list first, then a non-positive limit, then an
  oversize list, and the model keeps that order.
- The Javadoc of `getFittestChromosome` says nothing about an empty population. The code
  fails in `get(0)`, which the model returns as an `IndexOutOfBounds` error rather than
  demanding a non-empty population.
- The Javadoc of `checkSetValue` mentions only the rejection. The code dereferences the value
  predicate without checking it, so without a value predicate it fails with a null-pointer
  error (`NullValuePredicate`).
- The Javadoc of `hasNext` and `next` does not say what happens without a predicate. The
  code's scanning loop evaluates the predicate only when the decorated iterator has another
  element, so an unset predicate over an exhausted iterator gives `false` and
  NoSuchElement. The model handles that case too.

## Model

| member | source | states |
|---|---|---|
| Comparators.Empty | src/main/java/collections/comparators/FixedOrderComparator.java:48-64 | A new comparator is unlocked, knows no element, satisfies the invariant, and has the throwing policy as its default. |
| Comparators.AddAll | src/main/java/collections/comparators/FixedOrderComparator.java:80-82 | Adding items one by one fails exactly when the comparator is locked and there is at least one item. On success the counter advances by the number of items, and the lock and policy are unchanged. |
| Comparators.FromItems | src/main/java/collections/comparators/FixedOrderComparator.java:75-102 | A null list fails with NullItems, and any other list succeeds. The built comparator is valid and unlocked, uses the throwing policy, has counter equal to the list length, and knows exactly the listed items. |
| Comparators.AddAllKeys | src/main/java/collections/comparators/FixedOrderComparator.java:94-102 | After adding a list, exactly the old elements and the listed items are known. Elements not in the list keep their positions. |
| Comparators.AddAllLastOccurrence | src/main/java/collections/comparators/FixedOrderComparator.java:94-102 | After adding a list, each item's position is its last index in the list, offset by the old counter. A duplicate keeps the rank of its later occurrence. |
| Comparators.AddAllValid | src/main/java/collections/comparators/FixedOrderComparator.java:94-102 | Adding a list to a valid, unlocked comparator succeeds and keeps the invariant. |
| Comparators.FromItemsOrder | src/main/java/collections/comparators/FixedOrderComparator.java:10-20 | A comparator built from a list gives each last occurrence its list index as rank. Comparing two such items gives the sign of their index difference, so presentation order is reproduced. |
| Comparators.CheckLocked | src/main/java/collections/comparators/FixedOrderComparator.java:121-125 | Fails with Locked exactly when the comparator is locked. |
| Comparators.SetUnknownObjectBehavior | src/main/java/collections/comparators/FixedOrderComparator.java:148-156 | A locked comparator fails with Locked. Otherwise a flag outside {0,1,2} fails with UnrecognisedBehavior. Success happens exactly in the remaining case: it stores the flag, changes nothing else, and keeps the invariant. |
| Comparators.Add | src/main/java/collections/comparators/FixedOrderComparator.java:171-175 | Fails with Locked exactly when locked. Otherwise it returns true iff the element was unknown, gives it the old counter as position (replacing any earlier one), and increments the counter. |
| Comparators.AddAsEqual | src/main/java/collections/comparators/FixedOrderComparator.java:191-199 | Fails with Locked when locked and with NotKnown(existing) when the existing element is unranked. Otherwise the new element gets exactly the existing element's rank, the counter is unchanged, and the result is true iff the new element was unknown. |
| Comparators.Compare | src/main/java/collections/comparators/FixedOrderComparator.java:254-281 | The returned state is the old one with the lock set, whatever the outcome. Two known elements give the sign of their position difference. Under the throwing policy an unknown operand fails, naming obj1 if it is unknown and obj2 otherwise. An invalid flag reaches UnsupportedBehavior. Every result is -1, 0 or 1. |
| Comparators.AddRanksLast | src/main/java/collections/comparators/FixedOrderComparator.java:160-175 | On a valid unlocked comparator, add succeeds, keeps the invariant, and ranks the element strictly above every other known element, even when it is re-added. |
| Comparators.AddAsEqualAliases | src/main/java/collections/comparators/FixedOrderComparator.java:177-199 | Aliasing to a known element succeeds, keeps the invariant, and the two elements then compare as 0 in both orders. |
| Comparators.LockedAfterCompare | src/main/java/collections/comparators/FixedOrderComparator.java:22-23 | After any compare, the comparator is locked. Add, addAsEqual and setUnknownObjectBehavior then fail with Locked, and a further compare leaves the state as it is. |
| Comparators.ValidNeverUnsupported | src/main/java/collections/comparators/FixedOrderComparator.java:258-277 | On a valid comparator the default branch is unreachable. Compare fails only under the throwing policy with an unknown operand, and then with UnknownObject. |
| Comparators.UnknownPolicies | src/main/java/collections/comparators/FixedOrderComparator.java:226-245 | Under UNKNOWN_BEFORE, unknown < known, known > unknown, and two unknowns compare as 0. UNKNOWN_AFTER is the mirror image. Under UNKNOWN_THROW_EXCEPTION each of these fails, naming the unknown operand (obj1 when both are unknown). |
| Comparators.CompareAntisymmetric | src/main/java/collections/comparators/FixedOrderComparator.java:209-224 | For a valid comparator, swapping the operands keeps success or failure and negates the result. |
| Comparators.CompareTransitive | src/main/java/collections/comparators/FixedOrderComparator.java:10-13 | Under a non-throwing policy, "compares at most" is transitive, so compare is a total preorder. |
| Comparators.PlanetsRanks | src/main/java/collections/comparators/FixedOrderComparator.java:14-17 | The comparator built from the class example's planets knows exactly those four names, at positions 0 to 3 in the order given. |
| Comparators.PlanetsExample | src/main/java/collections/comparators/FixedOrderComparator.java:216-221 | With Mercury, Venus, Earth, Mars and Venus aliased to Earth: Mercury < Earth, Mars > Venus, Venus = Earth. An unknown Saturn fails under the default policy. |
| Genetics.Create | src/main/java/math/genetics/ListPopulation.java:49-65 | Checks in order: null list (NullArgument), then limit <= 0 (NotPositive), then size > limit (NumberIsTooLarge(size, limit)). Success happens exactly otherwise, holds the list in order with the given limit, and satisfies size <= limit. |
| Genetics.GetPopulationLimit | src/main/java/math/genetics/ListPopulation.java:159-165 | The limit of a valid population is positive. |
| Genetics.GetChromosomes | src/main/java/math/genetics/ListPopulation.java:105-111 | The chromosomes of a valid population never number more than its limit. |
| Genetics.GetPopulationSize | src/main/java/math/genetics/ListPopulation.java:184-190 | The size is the length of the chromosome list, and for a valid population at most its limit. |
| Genetics.AccessorsRebuild | src/main/java/math/genetics/ListPopulation.java:49-65 | Building a population from a valid population's chromosomes and limit gives that population back. |
| Genetics.CreateEmpty | src/main/java/math/genetics/ListPopulation.java:34-36 | Succeeds exactly for a positive limit, and the result is valid and empty. Otherwise it fails with NotPositive(limit). |
| Genetics.SetChromosomes | src/main/java/math/genetics/ListPopulation.java:67-89 | Fails on a null list or one longer than the limit, leaving the population as it was. On success the contents are exactly the list as passed, the limit is unchanged, and validity is kept. |
| Genetics.AddChromosomes | src/main/java/math/genetics/ListPopulation.java:97-103 | A null collection fails with NullCollection. Otherwise it fails exactly when size + n > limit, and the error carries the current size. On success the old contents are a prefix, the collection follows in order, the size grows by n, and validity is kept. |
| Genetics.AddChromosome | src/main/java/math/genetics/ListPopulation.java:128-134 | Fails exactly when size >= limit. On success the size grows by 1, the old contents are a prefix, the new chromosome is last, and validity is kept. |
| Genetics.SetPopulationLimit | src/main/java/math/genetics/ListPopulation.java:174-182 | Fails with NotPositive if limit <= 0 and with NumberIsTooSmall(limit, size) if limit < size. Otherwise only the limit changes and the result is valid. |
| Genetics.GetFittestChromosome | src/main/java/math/genetics/ListPopulation.java:147-157 | Fails with IndexOutOfBounds exactly on an empty population. For any comparison it returns a held chromosome that no later chromosome is strictly fitter than. When the comparison is a strict weak order, no held chromosome is strictly fitter, and every chromosome before its first occurrence is strictly less fit, so on ties the earliest maximal element is returned. |
| Genetics.FittestIndex | src/main/java/math/genetics/ListPopulation.java:149-155 | On a non-empty list the scan keeps an index no later chromosome is strictly fitter than. Under a strict weak order, no chromosome is strictly fitter than the kept one, and it is strictly fitter than every chromosome before it: a later, equally fit chromosome never replaces the best. |
| Genetics.NewFittest | src/main/java/math/genetics/ListPopulation.java:151-154 | Replacing the best so far with a strictly fitter chromosome keeps the scan invariant. Under a strict weak order the new best is strictly fitter than all chromosomes before it, and none seen so far is strictly fitter than it. |
| Genetics.MutatorsPreserveValid | src/main/java/math/genetics/ListPopulation.java:77-182 | Every successful mutator, whatever its argument, keeps 0 < limit and size <= limit. |
| Genetics.AddOneIsAddSingleton | src/main/java/math/genetics/ListPopulation.java:97-134 | Adding one chromosome is the same, including the error, as adding the one-element collection. |
| Genetics.AppendBeyondLimitFails | src/main/java/math/genetics/ListPopulation.java:121-134 | With limit 2, two additions succeed and the third fails with NumberIsTooLarge(2, 2). The size stays 2. |
| Genetics.SetChromosomesAsWritten | src/main/java/math/genetics/ListPopulation.java:77-89 | As written: with an independent list it behaves as SetChromosomes. Given the population's own view, it succeeds exactly when the size is within the limit, and then leaves the population empty. |
| Genetics.SetOwnChromosomesEmpties | src/main/java/math/genetics/ListPopulation.java:86-88 | As written: the population [1, 2] with limit 5, given its own view, ends up empty. |
| Genetics.SetOwnChromosomesKeeps | src/main/java/math/genetics/ListPopulation.java:67-76 | Corrected: giving a valid population its own chromosomes succeeds and changes nothing. |
| Maps.Validate | src/main/java/collections/map/PredicatedMap.java:88-95 | Succeeds iff each set predicate accepts its operand, and an absent predicate accepts everything. A pair failing the key predicate is reported as KeyRejected even when its value also fails. |
| Maps.ValidateAll | src/main/java/collections/map/PredicatedMap.java:67-73 | Validating every entry succeeds iff every entry is admissible. On failure the error is the one validate gives for some entry of the map. |
| Maps.Decorate | src/main/java/collections/map/PredicatedMap.java:48-74 | A null map fails with NullMap. Success happens iff every existing entry passes, and then the decorator holds the map and both predicates and satisfies the invariant. A failure names a failing entry. |
| Maps.CheckSetValue | src/main/java/collections/map/PredicatedMap.java:106-111 | With a value predicate, it succeeds iff the predicate accepts the value and returns the value unchanged; otherwise it fails with SetValueRejected. Without one it fails with a null-pointer error. |
| Maps.Put | src/main/java/collections/map/PredicatedMap.java:133-136 | Succeeds iff the pair is admissible, otherwise fails with validate's error and leaves the map as it was. On success the map becomes m[key := value], the predicates are kept, and the previous value for key is returned, if any. |
| Maps.IsSetValueChecking | src/main/java/collections/map/PredicatedMap.java:113-122 | When it holds, checkSetValue accepts exactly the values the value predicate accepts. When it does not, checkSetValue fails with the null-pointer error for every value. |
| Maps.PutAll | src/main/java/collections/map/PredicatedMap.java:138-155 | A null argument fails with NullMapToCopy. Otherwise it succeeds iff every pair of the argument is admissible. On failure nothing is copied and the error is validate's for some argument pair. On success the old map is overridden by the argument: keys are the union, argument values win, and other values are kept. A valid decorator stays valid. |
| Maps.PutPreservesValid | src/main/java/collections/map/PredicatedMap.java:13-18 | A successful put keeps the invariant that every entry satisfies the set predicates. |
| Maps.OverridePreservesValid | src/main/java/collections/map/PredicatedMap.java:138-155 | Overriding a valid map with an all-admissible map, as putAll does, keeps the invariant. |
| Maps.CheckedSetValuePreservesValid | src/main/java/collections/map/PredicatedMap.java:97-111 | When values are checked, replacing an entry's value with one checkSetValue accepts keeps the invariant. |
| Maps.SetValueCheckingGuard | src/main/java/collections/map/PredicatedMap.java:113-122 | isSetValueChecking holds iff checkSetValue does not hit the missing predicate. When it holds, checkSetValue accepts exactly what the value predicate accepts. |
| Maps.UnconstrainedPut | src/main/java/collections/map/PredicatedMap.java:22 | With both predicates absent, every map is valid and put is plain map update. |
| Iterators.Scan | src/main/java/collections/iterators/FilterIterator.java:163-173 | The scanning loop stops just past the first accepted element, or at the end. Every element it steps over is rejected. The accepted elements from the start are the found one followed by those after the stop. |
| Iterators.SetNextObject | src/main/java/collections/iterators/FilterIterator.java:156-173 | Succeeds iff an accepted element remains, and caches the first one. The cursor ends just past it, or at the end on failure, and every skipped element is rejected. The pending elements lose exactly the cached one. |
| Iterators.Create | src/main/java/collections/iterators/FilterIterator.java:26-59 | A new filter iterator holds the given iterator and predicate, either possibly unset, and caches nothing. |
| Iterators.SetIterator | src/main/java/collections/iterators/FilterIterator.java:121-131 | Replaces the iterator, keeps the predicate and discards the cached element. |
| Iterators.SetPredicate | src/main/java/collections/iterators/FilterIterator.java:143-153 | Replaces the predicate, keeps the iterator and discards the cached element. |
| Iterators.HasNext | src/main/java/collections/iterators/FilterIterator.java:61-74 | Answers whether anything remains to be produced, without changing what remains or the decorated collection. A cached element makes it return at once with the state untouched. A false answer leaves the cursor at the end. |
| Iterators.Next | src/main/java/collections/iterators/FilterIterator.java:76-94 | Succeeds iff something remains and returns its first element, which is the cached one if present. Afterwards nothing is cached, the rest remains, the decorated collection is unchanged, the returned element is the inner iterator's last, and the work measure drops. Otherwise it fails with NoSuchElement with the cursor at the end. |
| Iterators.HandOutCached | src/main/java/collections/iterators/FilterIterator.java:92-93 | Handing out the cached element returns the first remaining element, keeps the rest remaining, lowers the work measure, and leaves it as the decorated iterator's last returned element. |
| Iterators.Remove | src/main/java/collections/iterators/FilterIterator.java:96-109 | Fails with IllegalState while an element is cached. Otherwise it forwards to the decorated iterator's remove, keeping the predicate. |
| Iterators.HasNextIdempotent | src/main/java/collections/iterators/FilterIterator.java:62-74 | A second hasNext with no next in between returns the same answer and leaves the state unchanged, so the cursor does not advance past the first match. |
| Iterators.NextAfterHasNext | src/main/java/collections/iterators/FilterIterator.java:76-94 | After hasNext answers true, next returns exactly the element hasNext found and only clears the cache; the decorated iterator is untouched. |
| Iterators.DrainIsRemaining | src/main/java/collections/iterators/FilterIterator.java:86-94 | Calling next until it fails yields the cached element, if any, followed by the accepted remaining inner elements, in order and each once. |
| Iterators.DrainFresh | src/main/java/collections/iterators/FilterIterator.java:121-153 | A fresh filter iterator over a sequence yields the filtered sequence. So does any filter iterator rebound with setIterator and setPredicate, whatever it had cached. |
| Iterators.EvenExample | src/main/java/collections/iterators/FilterIterator.java:9-13 | Filtering 1..6 for even numbers yields 2, 4, 6. |
| Iterators.UnsetPredicateOverExhausted | src/main/java/collections/iterators/FilterIterator.java:163-172 | With no predicate and an exhausted decorated iterator, hasNext answers false and next fails with NoSuchElement, both leaving the state unchanged. |
| Iterators.ExhaustedIterator | src/main/java/collections/iterators/FilterIterator.java:163-172 | When nothing accepted remains, hasNext is false and next fails with NoSuchElement. Both leave the cursor at the end. |
| Iterators.RemoveAfterNextRemovesReturned | src/main/java/collections/iterators/FilterIterator.java:96-109 | Remove right after a successful next succeeds and deletes exactly the element next returned from the decorated collection. |
| Iterators.RemoveRefusedAfterHasNext | src/main/java/collections/iterators/FilterIterator.java:104-108 | After hasNext answers true, remove fails with IllegalState. |
| Iterators.RemoveAfterFailedHasNextDeletesRejected | src/main/java/collections/iterators/FilterIterator.java:104-109 | As written: over [2, 3] with "is even", next returns 2, hasNext answers false after stepping over 3, and remove then succeeds and deletes 3, not 2. |
| Iterators.GuardedHasNext | src/main/java/collections/iterators/FilterIterator.java:61-74 | Corrected hasNext: answers as hasNext and records that it was called, so the wrapper's invariant holds. |
| Iterators.GuardedNext | src/main/java/collections/iterators/FilterIterator.java:76-94 | Corrected next: behaves as next and clears the record of a hasNext call. |
| Iterators.GuardedRemove | src/main/java/collections/iterators/FilterIterator.java:96-103 | Corrected remove: fails with IllegalState whenever hasNext was called since the last next. Otherwise it succeeds exactly when remove does, with the same resulting iterator, and its only error is IllegalState. |
| Iterators.GuardedRemoveDeletesReturned | src/main/java/collections/iterators/FilterIterator.java:96-103 | With the correction, remove after a successful next deletes exactly the returned element. After a further hasNext, whatever its answer, remove is refused. |
| Iterators.GuardedRemoveRefusesAfterFailedHasNext | src/main/java/collections/iterators/FilterIterator.java:96-103 | On the [2, 3] input above, the corrected remove is refused after the failed hasNext. |

## Left out

- Add: the position counter is an unbounded integer. The Java class's `int` counter wraps after 2^31 additions, after which a newly added element would rank below the others; that case is not modelled.
- Identity-based lookup: ranks and map keys use value equality (a Dafny `map`), not Java `equals`/`hashCode` or reference identity.
- The array and `List` constructors of the comparator behave the same and are both modelled by `FromItems`. `isLocked` and `getUnknownObjectBehavior` are plain accessors (`IsLocked`, `GetUnknownObjectBehavior`).
- Chromosome.compareTo: the Chromosome class is not part of this model. Its comparison is a parameter. The maximality properties of `GetFittestChromosome` are stated for a comparison whose "compares greater than 0" is a strict weak order on the population's chromosomes, which the `Comparable` contract guarantees. For any other comparison only the weaker, unconditional property is stated.
- AddChromosomes: sizes are unbounded integers. In the Java class, `size() + chromosomeColl.size()` is an `int` sum that wraps to a negative number once it reaches 2^31. For example, adding a collection of 2^31 - 1 elements to a non-empty population passes the limit check. The append then fails inside `ArrayList`, which cannot hold that many elements, with an error other than NumberIsTooLarge, and nothing is appended. That case is not modelled.
- `toString`, `iterator()`, `getChromosomeList` and the `Collections.unmodifiableList` wrapper are left out. `GetChromosomes` returns the immutable sequence itself, so nothing can change the population through it. The live view matters in one place, `setChromosomes` given the population's own view, which `SetChromosomesAsWritten` models.
- Exception messages and `LocalizedFormats` are left out. Each error is a constructor naming the exception. `UnknownObject(obj)`, `NotKnown(obj)` and the numbers in the population errors are values the Java class puts into the exception. `KeyRejected(key)`, `ValueRejected(value)`, `SetValueRejected(value)` and `UnrecognisedBehavior(flag)` carry the rejected operand so that contracts can say which input failed, although the Java exceptions carry only a constant message.
- Java serialization of PredicatedMap (`Serializable`, the stream imports) is left out: it is I/O.
- The superclass of PredicatedMap is not part of this model, and neither is its entry-set `setValue` plumbing. Only its null-map check is modelled, as `NullMap` in `Decorate`. `CheckedSetValuePreservesValid` states what a checked `setValue` must keep.
- The decorator wraps the map rather than copying it. Changes made to the decorated map from outside are not modelled.
- Decorate: the Java class validates entries in the map's iteration order and reports the first failing one. The model visits entries in an unspecified order and promises only that the error describes SOME failing entry.
- PutAll: as for Decorate, the error describes some failing pair, not the first in iteration order.
- ValidateAll: as for Decorate.
- FilterIterator: in the Java class, `hasNext` and `next` throw NullPointerException when no iterator is set, or when no predicate is set and the decorated iterator still has an element. `remove` throws it when no iterator is set and nothing is cached. The model excludes exactly those states by precondition (`Usable`, and an iterator or a cached element for `Remove`). Every other state, including an unset predicate over an exhausted iterator, is modelled.
- The decorated iterator is a cursor over a sequence obeying the `java.util.Iterator` contract. An iterator whose `remove` is unsupported, or one that is infinite, is not modelled.
- `getIterator` and `getPredicate` are plain accessors (`GetIterator`, `GetPredicate`).
- The corrected `Guarded` wrapper does not offer `setIterator`/`setPredicate`. It pairs a filter iterator with the one flag the correction needs.

## Findings

| source | as written | input that shows it | evidently intended | confidence | as-written member | corrected member |
|---|---|---|---|---|---|---|
| src/main/java/math/genetics/ListPopulation.java:86-88 | `setChromosomes` clears its own list and then appends the argument. `getChromosomes` returns a live view of that same list. | `p.setChromosomes(p.getChromosomes())` on a population holding [1, 2]: `clear()` also empties the argument, so nothing is appended and the population ends up empty | the population holds exactly the chromosomes of the list passed in, as the method's documentation (lines 67-72) says | low; not executed | Genetics.SetOwnChromosomesEmpties | Genetics.SetOwnChromosomesKeeps |
| src/main/java/collections/iterators/FilterIterator.java:104-109 | `remove` is refused only while a lookahead element is cached. A `hasNext` that scans to the end without a match moves the inner iterator but caches nothing. | inner [2, 3] with "is even": `next()` returns 2, `hasNext()` returns false after stepping over 3, then `remove()` deletes 3 | `remove` throws IllegalStateException whenever `hasNext()` was called since the last `next()`, as the method's documentation (lines 100-101) says | medium; not executed | Iterators.RemoveAfterFailedHasNextDeletesRejected | Iterators.GuardedRemoveDeletesReturned |

`Remove` models the code as written, and the properties listed above are stated about it. The `Guarded` wrapper (`GuardedHasNext`, `GuardedNext`, `GuardedRemove`) models the intended behaviour.

`SetChromosomesAsWritten` models the clear-then-append order of `setChromosomes`, with an argument that may be the population's own view. `SetChromosomes` models the intended behaviour, and every other member uses it.

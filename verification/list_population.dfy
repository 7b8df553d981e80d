/**
  A population of chromosomes held in a list whose size never exceeds a
  population limit. Every mutator checks the limit before changing anything,
  and the fittest chromosome is found by a linear scan with the chromosomes'
  own comparison.
 */
module Genetics {
  import opened Results

  /** The exceptions the population raises. */
  datatype Error =
    | NullArgument                           // NullArgumentException: the list is null
    | NotPositive(value: int)                // NotPositiveException: limit < 1
    | NumberIsTooLarge(wrong: int, max: int) // NumberIsTooLargeException(size, limit)
    | NumberIsTooSmall(wrong: int, min: int) // NumberIsTooSmallException(limit, size)
    | IndexOutOfBounds                       // get(0) on an empty list
    | NullCollection                         // NullPointerException: size() of a null collection

  /** The chromosomes in insertion order and the maximal population size. */
  datatype Population<T> = Population(chromosomes: seq<T>, populationLimit: int)

  /** The invariant every constructed population keeps. */
  predicate Valid<T>(p: Population<T>) {
    0 < p.populationLimit && |p.chromosomes| <= p.populationLimit
  }

  // Construction
  //---------------------------------------------------------------------------

  /**
    Builds a population from a (possibly null) list. The checks run in the
    Java class's order: null list, then a non-positive limit, then a list
    longer than the limit.
   */
  function Create<T>(chromosomes: Option<seq<T>>, populationLimit: int): (r: Result<Population<T>, Error>)
    ensures chromosomes.None? ==> r == Err(NullArgument)
    ensures chromosomes.Some? && populationLimit <= 0 ==> r == Err(NotPositive(populationLimit))
    ensures chromosomes.Some? && 0 < populationLimit < |chromosomes.value| ==>
      r == Err(NumberIsTooLarge(|chromosomes.value|, populationLimit))
    ensures r.Ok? <==> chromosomes.Some? && 0 < populationLimit && |chromosomes.value| <= populationLimit
    ensures r.Ok? ==> Valid(r.value)
    ensures r.Ok? ==> r.value.chromosomes == chromosomes.value && r.value.populationLimit == populationLimit
  {
    match chromosomes
    case None => Err(NullArgument)
    case Some(list) =>
      if populationLimit <= 0 then Err(NotPositive(populationLimit))
      else if |list| > populationLimit then Err(NumberIsTooLarge(|list|, populationLimit))
      else Ok(Population(list, populationLimit))
  }

  /** An empty population with the given limit. */
  function CreateEmpty<T>(populationLimit: int): (r: Result<Population<T>, Error>)
    ensures r.Ok? <==> 0 < populationLimit
    ensures r.Err? ==> r.error == NotPositive(populationLimit)
    ensures r.Ok? ==> Valid(r.value) && GetPopulationSize(r.value) == 0
  {
    Create(Some([]), populationLimit)
  }

  // Accessors
  //---------------------------------------------------------------------------

  /** The maximal size; always positive. */
  function GetPopulationLimit<T>(p: Population<T>): (r: int)
    ensures Valid(p) ==> 0 < r
  {
    p.populationLimit
  }

  /** The chromosomes in insertion order; never more than the limit allows. */
  function GetChromosomes<T>(p: Population<T>): (r: seq<T>)
    ensures Valid(p) ==> |r| <= GetPopulationLimit(p)
  {
    p.chromosomes
  }

  /** The number of chromosomes held; never above the limit. */
  function GetPopulationSize<T>(p: Population<T>): (r: nat)
    ensures r == |GetChromosomes(p)|
    ensures Valid(p) ==> r <= GetPopulationLimit(p)
  {
    |p.chromosomes|
  }

  // Mutators
  //---------------------------------------------------------------------------

  /**
    Replaces all chromosomes; refused for a null or an oversize list. The new
    contents are the argument's as it was passed, even when it is a view of
    the population's own list (see `SetChromosomesAsWritten`).
   */
  function SetChromosomes<T>(p: Population<T>, chromosomes: Option<seq<T>>): (r: Result<Population<T>, Error>)
    ensures chromosomes.None? ==> r == Err(NullArgument)
    ensures chromosomes.Some? && |chromosomes.value| > p.populationLimit ==>
      r == Err(NumberIsTooLarge(|chromosomes.value|, p.populationLimit))
    ensures r.Ok? <==> chromosomes.Some? && |chromosomes.value| <= p.populationLimit
    ensures r.Ok? ==> GetChromosomes(r.value) == chromosomes.value
    ensures r.Ok? ==> GetPopulationLimit(r.value) == p.populationLimit
    ensures Valid(p) && r.Ok? ==> Valid(r.value)
  {
    match chromosomes
    case None => Err(NullArgument)
    case Some(list) =>
      if |list| > p.populationLimit then Err(NumberIsTooLarge(|list|, p.populationLimit))
      else Ok(p.(chromosomes := list))
  }

  /**
    Appends a (possibly null) collection in order, or nothing at all when the
    result would exceed the limit. A null collection fails when its size is
    taken. The error for an oversize result carries the CURRENT size, as the
    Java class does.
   */
  function AddChromosomes<T>(p: Population<T>, chromosomeColl: Option<seq<T>>): (r: Result<Population<T>, Error>)
    ensures chromosomeColl.None? ==> r == Err(NullCollection)
    ensures r.Ok? <==> chromosomeColl.Some? && |p.chromosomes| + |chromosomeColl.value| <= p.populationLimit
    ensures chromosomeColl.Some? && r.Err? ==> r.error == NumberIsTooLarge(|p.chromosomes|, p.populationLimit)
    ensures r.Ok? ==> GetPopulationSize(r.value) == GetPopulationSize(p) + |chromosomeColl.value|
    ensures r.Ok? ==> GetChromosomes(r.value)[..|p.chromosomes|] == p.chromosomes
    ensures r.Ok? ==> GetChromosomes(r.value)[|p.chromosomes|..] == chromosomeColl.value
    ensures r.Ok? ==> GetPopulationLimit(r.value) == p.populationLimit
    ensures Valid(p) && r.Ok? ==> Valid(r.value)
  {
    match chromosomeColl
    case None => Err(NullCollection)
    case Some(coll) =>
      if |p.chromosomes| + |coll| > p.populationLimit then
        Err(NumberIsTooLarge(|p.chromosomes|, p.populationLimit))
      else
        Ok(p.(chromosomes := p.chromosomes + coll))
  }

  /** Appends one chromosome unless the population is already full. */
  function AddChromosome<T>(p: Population<T>, chromosome: T): (r: Result<Population<T>, Error>)
    ensures r.Err? <==> |p.chromosomes| >= p.populationLimit
    ensures r.Err? ==> r.error == NumberIsTooLarge(|p.chromosomes|, p.populationLimit)
    ensures r.Ok? ==> GetPopulationSize(r.value) == GetPopulationSize(p) + 1
    ensures r.Ok? ==> GetChromosomes(r.value)[..|p.chromosomes|] == p.chromosomes
    ensures r.Ok? ==> GetChromosomes(r.value)[|p.chromosomes|] == chromosome
    ensures r.Ok? ==> GetPopulationLimit(r.value) == p.populationLimit
    ensures Valid(p) && r.Ok? ==> Valid(r.value)
  {
    if |p.chromosomes| >= p.populationLimit then
      Err(NumberIsTooLarge(|p.chromosomes|, p.populationLimit))
    else
      Ok(p.(chromosomes := p.chromosomes + [chromosome]))
  }

  /** Changes the limit; refused when not positive or below the current size. */
  function SetPopulationLimit<T>(p: Population<T>, populationLimit: int): (r: Result<Population<T>, Error>)
    ensures populationLimit <= 0 ==> r == Err(NotPositive(populationLimit))
    ensures 0 < populationLimit < |p.chromosomes| ==>
      r == Err(NumberIsTooSmall(populationLimit, |p.chromosomes|))
    ensures r.Ok? <==> 0 < populationLimit && |p.chromosomes| <= populationLimit
    ensures r.Ok? ==> GetChromosomes(r.value) == p.chromosomes
    ensures r.Ok? ==> GetPopulationLimit(r.value) == populationLimit
    ensures r.Ok? ==> Valid(r.value)
  {
    if populationLimit <= 0 then Err(NotPositive(populationLimit))
    else if populationLimit < |p.chromosomes| then
      Err(NumberIsTooSmall(populationLimit, |p.chromosomes|))
    else Ok(p.(populationLimit := populationLimit))
  }

  // The fittest chromosome
  //---------------------------------------------------------------------------

  /** `compareTo(a, b) > 0`: `a` is strictly fitter than `b`. */
  predicate Fitter<T>(compareTo: (T, T) -> int, a: T, b: T) {
    compareTo(a, b) > 0
  }

  /** `s[i]` is strictly fitter than `s[j]`, for indices of `s`. */
  predicate FitterAt<T>(compareTo: (T, T) -> int, s: seq<T>, i: int, j: int) {
    0 <= i < |s| && 0 <= j < |s| && Fitter(compareTo, s[i], s[j])
  }

  /**
    What the scan needs of `compareTo` on the chromosomes `s`: "strictly
    fitter" is asymmetric and negatively transitive among them (a strict weak
    order), as the Comparable contract guarantees.
   */
  ghost predicate StrictWeakOrder<T>(compareTo: (T, T) -> int, s: seq<T>) {
    && (forall i, j :: FitterAt(compareTo, s, i, j) ==> !FitterAt(compareTo, s, j, i))
    && (forall i, j, k :: 0 <= j < |s| && FitterAt(compareTo, s, i, k) ==>
          FitterAt(compareTo, s, i, j) || FitterAt(compareTo, s, j, k))
  }

  /**
    The scan's invariant after looking at `s[..i]` and keeping index `k` when
    "strictly fitter" is a strict weak order: no chromosome seen so far is
    strictly fitter than `s[k]`, and `s[k]` is strictly fitter than every
    chromosome before it.
   */
  ghost predicate BestSoFar<T>(compareTo: (T, T) -> int, s: seq<T>, k: int, i: int) {
    && 0 <= k < |s| && k <= i <= |s|
    && (forall j :: 0 <= j < i ==> !Fitter(compareTo, s[j], s[k]))
    && (forall j :: 0 <= j < k ==> Fitter(compareTo, s[k], s[j]))
  }

  /**
    The scan's invariant for any `compareTo`: no chromosome seen after the
    kept one is strictly fitter than it, and `BestSoFar` holds under a strict
    weak order.
   */
  ghost predicate ScanState<T>(compareTo: (T, T) -> int, s: seq<T>, k: int, i: int) {
    && 0 <= k < |s| && k <= i <= |s|
    && (forall j :: k < j < i ==> !Fitter(compareTo, s[j], s[k]))
    && (StrictWeakOrder(compareTo, s) ==> BestSoFar(compareTo, s, k, i))
  }

  /** A chromosome no fitter than the best so far leaves the best in place. */
  lemma KeepFittest<T>(compareTo: (T, T) -> int, s: seq<T>, k: int, i: int)
    requires ScanState(compareTo, s, k, i) && i < |s|
    requires !Fitter(compareTo, s[i], s[k])
    ensures ScanState(compareTo, s, k, i + 1)
  {
  }

  /**
    A chromosome strictly fitter than the best so far becomes the new best;
    under a strict weak order it is strictly fitter than every earlier
    chromosome, and none of them is strictly fitter than it.
   */
  lemma NewFittest<T>(compareTo: (T, T) -> int, s: seq<T>, k: int, i: int)
    requires ScanState(compareTo, s, k, i) && i < |s|
    requires Fitter(compareTo, s[i], s[k])
    ensures ScanState(compareTo, s, i, i + 1)
  {
    if StrictWeakOrder(compareTo, s) {
      assert FitterAt(compareTo, s, i, k);
      forall j | 0 <= j <= i
        ensures !Fitter(compareTo, s[j], s[i]) && (j < i ==> Fitter(compareTo, s[i], s[j]))
      {
        // s[k] is not strictly fitter than s[i]; by negative transitivity,
        // s[j] strictly fitter than s[i] would make it strictly fitter than s[k].
        assert !FitterAt(compareTo, s, k, i);
        if j < k {
          assert FitterAt(compareTo, s, k, j);
          assert FitterAt(compareTo, s, k, i) || FitterAt(compareTo, s, i, j);
        } else if j < i {
          assert !FitterAt(compareTo, s, j, k);
          assert FitterAt(compareTo, s, i, j) || FitterAt(compareTo, s, j, k);
        }
        assert !FitterAt(compareTo, s, j, i);
      }
    }
  }

  /**
    The scan of `getFittestChromosome`: keeps the index of the best so far,
    replaced only by a strictly fitter chromosome. Whatever `compareTo` is, no
    chromosome after the kept one is strictly fitter than it. When
    `compareTo` is a strict weak order, no chromosome at all is strictly
    fitter, and the kept one is strictly fitter than every chromosome before
    it.
   */
  method FittestIndex<T>(s: seq<T>, compareTo: (T, T) -> int) returns (k: nat)
    requires |s| > 0
    ensures k < |s|
    ensures forall j :: k < j < |s| ==> !Fitter(compareTo, s[j], s[k])
    ensures StrictWeakOrder(compareTo, s) ==> forall j :: 0 <= j < |s| ==> !Fitter(compareTo, s[j], s[k])
    ensures StrictWeakOrder(compareTo, s) ==> forall j :: 0 <= j < k ==> Fitter(compareTo, s[k], s[j])
  {
    k := 0;
    var i := 0;
    while i < |s|
      invariant ScanState(compareTo, s, k, i)
      decreases |s| - i
    {
      if Fitter(compareTo, s[i], s[k]) {
        NewFittest(compareTo, s, k, i);
        k := i;
      } else {
        KeepFittest(compareTo, s, k, i);
      }
      i := i + 1;
    }
  }

  /**
    The fittest chromosome, or the error `get(0)` raises on an empty
    population. For any `compareTo` the result is a held chromosome that no
    later chromosome is strictly fitter than. When `compareTo` is a strict
    weak order, no held chromosome is strictly fitter than the result, and
    it is the earliest such: every chromosome before its first occurrence is
    strictly less fit.
   */
  method GetFittestChromosome<T>(p: Population<T>, compareTo: (T, T) -> int) returns (r: Result<T, Error>)
    ensures r.Err? <==> |p.chromosomes| == 0
    ensures r.Err? ==> r.error == IndexOutOfBounds
    ensures r.Ok? ==>
      exists k :: 0 <= k < |p.chromosomes| && p.chromosomes[k] == r.value
                  && (forall j :: k < j < |p.chromosomes| ==> !Fitter(compareTo, p.chromosomes[j], r.value))
    ensures r.Ok? && StrictWeakOrder(compareTo, p.chromosomes) ==>
      forall j :: 0 <= j < |p.chromosomes| ==> !Fitter(compareTo, p.chromosomes[j], r.value)
    ensures r.Ok? && StrictWeakOrder(compareTo, p.chromosomes) ==>
      forall j :: 0 <= j < |p.chromosomes| && !Fitter(compareTo, r.value, p.chromosomes[j]) ==>
        r.value in p.chromosomes[..j + 1]
  {
    var s := p.chromosomes;
    if |s| == 0 {
      return Err(IndexOutOfBounds);
    }
    var k := FittestIndex(s, compareTo);
    if StrictWeakOrder(compareTo, s) {
      forall j | 0 <= j < |s| && !Fitter(compareTo, s[k], s[j])
        ensures s[k] in s[..j + 1]
      {
        assert !(j < k);
        assert s[..j + 1][k] == s[k];
      }
    }
    r := Ok(s[k]);
  }

  // Properties relating several operations
  //---------------------------------------------------------------------------

  /** Every mutator keeps the invariant, whatever it is given. */
  lemma MutatorsPreserveValid<T>(p: Population<T>, list: Option<seq<T>>, coll: Option<seq<T>>, x: T, limit: int)
    requires Valid(p)
    ensures SetChromosomes(p, list).Ok? ==> Valid(SetChromosomes(p, list).value)
    ensures AddChromosomes(p, coll).Ok? ==> Valid(AddChromosomes(p, coll).value)
    ensures AddChromosome(p, x).Ok? ==> Valid(AddChromosome(p, x).value)
    ensures SetPopulationLimit(p, limit).Ok? ==> Valid(SetPopulationLimit(p, limit).value)
  {
  }

  /** Adding one chromosome is adding the singleton collection. */
  lemma AddOneIsAddSingleton<T>(p: Population<T>, x: T)
    ensures AddChromosome(p, x).Ok? <==> AddChromosomes(p, Some([x])).Ok?
    ensures AddChromosome(p, x) == AddChromosomes(p, Some([x]))
  {
  }

  /**
    Adding chromosomes one at a time until the population is full: with
    limit 2, two additions succeed and a third fails, leaving the size at 2.
   */
  lemma AppendBeyondLimitFails<T>(x: T, y: T, z: T)
    ensures CreateEmpty<T>(2).Ok?
    ensures var p0 := CreateEmpty<T>(2).value;
      && AddChromosome(p0, x).Ok?
      && AddChromosome(AddChromosome(p0, x).value, y).Ok?
      && var p2 := AddChromosome(AddChromosome(p0, x).value, y).value;
      && AddChromosome(p2, z) == Err(NumberIsTooLarge(2, 2))
      && GetPopulationSize(p2) == 2
  {
  }

  /**
    The accessors give back exactly what construction took: rebuilding a
    valid population from its chromosomes and its limit yields it again.
   */
  lemma AccessorsRebuild<T>(p: Population<T>)
    requires Valid(p)
    ensures Create(Some(GetChromosomes(p)), GetPopulationLimit(p)) == Ok(p)
    ensures GetPopulationSize(p) <= GetPopulationLimit(p)
  {
  }

  // Finding: `setChromosomes` with the population's own list
  //---------------------------------------------------------------------------

  /**
    The list argument of `setChromosomes` as the Java method sees it: null,
    the view `getChromosomes` returns of the population's own list, or a
    list independent of the population.
   */
  datatype ListArgument<T> = NullList | OwnView | Independent(list: seq<T>)

  /**
    `setChromosomes` as written: it checks the argument's size, clears its
    own list, and then appends the argument's contents as they read AFTER
    the clear. Through the population's own view, those contents are gone.
   */
  function SetChromosomesAsWritten<T>(p: Population<T>, arg: ListArgument<T>): (r: Result<Population<T>, Error>)
    ensures arg.Independent? ==> r == SetChromosomes(p, Some(arg.list))
    ensures arg.NullList? ==> r == Err(NullArgument)
    ensures arg.OwnView? ==> (r.Ok? <==> |p.chromosomes| <= p.populationLimit)
    ensures arg.OwnView? && r.Ok? ==> GetPopulationSize(r.value) == 0
  {
    match arg
    case NullList => Err(NullArgument)
    case Independent(list) => SetChromosomes(p, Some(list))
    case OwnView =>
      if |p.chromosomes| > p.populationLimit then
        Err(NumberIsTooLarge(|p.chromosomes|, p.populationLimit))
      else
        var cleared := p.(chromosomes := []);
        Ok(cleared.(chromosomes := cleared.chromosomes + GetChromosomes(cleared)))
  }

  /**
    As written, handing a population its own chromosomes empties it: with
    chromosomes [1, 2] and limit 5 the result holds no chromosome.
   */
  lemma SetOwnChromosomesEmpties()
    ensures var p := Population([1, 2], 5);
      && SetChromosomesAsWritten(p, OwnView) == Ok(Population([], 5))
      && GetChromosomes(p) != []
  {
  }

  /**
    The evidently intended behaviour, which `SetChromosomes` models by taking
    the argument's contents before anything is cleared: handing a population
    its own chromosomes changes nothing.
   */
  lemma SetOwnChromosomesKeeps<T>(p: Population<T>)
    requires Valid(p)
    ensures SetChromosomes(p, Some(GetChromosomes(p))) == Ok(p)
  {
  }
}

/**
  A comparator that imposes a caller-defined order on a set of elements.
  Elements are ranked in the order they are presented; the first comparison
  locks the comparator against further change, and elements that were never
  presented are handled by one of three policies.

  Ranking is by value equality: the rank table is a Dafny `map`.
 */
module Comparators {
  import opened Results

  /** Unknown elements compare as coming before known ones. */
  const UNKNOWN_BEFORE: int := 0
  /** Unknown elements compare as coming after known ones. */
  const UNKNOWN_AFTER: int := 1
  /** Comparing an unknown element is an error (the default). */
  const UNKNOWN_THROW_EXCEPTION: int := 2

  /** The exceptions the comparator raises. */
  datatype Error<T> =
    | Locked                          // UnsupportedOperationException: modified after a comparison
    | UnrecognisedBehavior(flag: int) // IllegalArgumentException from setUnknownObjectBehavior
    | NullItems                       // IllegalArgumentException: the list of items is null
    | NotKnown(obj: T)                // IllegalArgumentException from addAsEqual
    | UnknownObject(obj: T)           // IllegalArgumentException from compare
    | UnsupportedBehavior(flag: int)  // UnsupportedOperationException from compare's default branch

  /**
    The comparator's state: element-to-position table, the next position to
    hand out, the lock flag and the unknown-object behaviour flag.
   */
  datatype Comparator<T> = Comparator(
    ranks: map<T, int>,
    counter: int,
    locked: bool,
    unknownObjectBehavior: int)

  predicate IsBehavior(flag: int) {
    flag == UNKNOWN_BEFORE || flag == UNKNOWN_AFTER || flag == UNKNOWN_THROW_EXCEPTION
  }

  /** The invariant every reachable comparator keeps. */
  predicate Valid<T>(c: Comparator<T>) {
    && IsBehavior(c.unknownObjectBehavior)
    && 0 <= c.counter
    && forall x :: x in c.ranks ==> 0 <= c.ranks[x] < c.counter
  }

  // Construction
  //---------------------------------------------------------------------------

  /** The empty, unlocked comparator with the default (throwing) policy. */
  function Empty<T>(): (c: Comparator<T>)
    ensures Valid(c) && !c.locked && |c.ranks| == 0
    ensures c.unknownObjectBehavior == UNKNOWN_THROW_EXCEPTION
  {
    Comparator(map[], 0, false, UNKNOWN_THROW_EXCEPTION)
  }

  /** Adds `items` one by one, in order, as the constructors do. */
  function AddAll<T>(c: Comparator<T>, items: seq<T>): (r: Result<Comparator<T>, Error<T>>)
    ensures r.Err? <==> c.locked && |items| > 0
    ensures r.Ok? ==> r.value.counter == c.counter + |items|
    ensures r.Ok? ==> r.value.locked == c.locked
    ensures r.Ok? ==> r.value.unknownObjectBehavior == c.unknownObjectBehavior
    decreases |items|
  {
    if |items| == 0 then Ok(c)
    else
      match AddAll(c, items[..|items| - 1])
      case Err(e) => Err(e)
      case Ok(c') =>
        match Add(c', items[|items| - 1])
        case Err(e) => Err(e)
        case Ok(p) => Ok(p.0)
  }

  /**
    Builds a comparator from a (possibly null) list or array of items;
    each item is added in order.
   */
  function FromItems<T>(items: Option<seq<T>>): (r: Result<Comparator<T>, Error<T>>)
    ensures items.None? <==> r == Err(NullItems)
    ensures r.Ok? <==> items.Some?
    ensures r.Ok? ==> Valid(r.value) && !r.value.locked
    ensures r.Ok? ==> r.value.unknownObjectBehavior == UNKNOWN_THROW_EXCEPTION
    ensures r.Ok? ==> r.value.counter == |items.value|
    ensures r.Ok? ==> r.value.ranks.Keys == set x | x in items.value
  {
    match items
    case None => Err(NullItems)
    case Some(s) =>
      AddAllKeys(Empty(), s);
      AddAllValid(Empty(), s);
      AddAll(Empty(), s)
  }

  // State querying and the lock
  //---------------------------------------------------------------------------

  function IsLocked<T>(c: Comparator<T>): bool {
    c.locked
  }

  /** Fails exactly when the comparator is locked. */
  function CheckLocked<T>(c: Comparator<T>): (r: Result<(), Error<T>>)
    ensures r.Err? <==> c.locked
    ensures r.Err? ==> r.error == Locked
  {
    if IsLocked(c) then Err(Locked) else Ok(())
  }

  function GetUnknownObjectBehavior<T>(c: Comparator<T>): int {
    c.unknownObjectBehavior
  }

  /** Sets the unknown-object policy; refused when locked or when the flag is not one of the three. */
  function SetUnknownObjectBehavior<T>(c: Comparator<T>, flag: int): (r: Result<Comparator<T>, Error<T>>)
    ensures c.locked ==> r == Err(Locked)
    ensures !c.locked && !IsBehavior(flag) ==> r == Err(UnrecognisedBehavior(flag))
    ensures r.Ok? <==> !c.locked && IsBehavior(flag)
    ensures r.Ok? ==> r.value.ranks == c.ranks && r.value.counter == c.counter
    ensures r.Ok? ==> GetUnknownObjectBehavior(r.value) == flag && !r.value.locked
    ensures Valid(c) && r.Ok? ==> Valid(r.value)
  {
    match CheckLocked(c)
    case Err(e) => Err(e)
    case Ok(_) =>
      if flag != UNKNOWN_AFTER && flag != UNKNOWN_BEFORE && flag != UNKNOWN_THROW_EXCEPTION then
        Err(UnrecognisedBehavior(flag))
      else
        Ok(c.(unknownObjectBehavior := flag))
  }

  // Adding items
  //---------------------------------------------------------------------------

  /**
    Gives `obj` the next position, replacing any earlier position it had.
    Returns whether `obj` was unknown before.
   */
  function Add<T>(c: Comparator<T>, obj: T): (r: Result<(Comparator<T>, bool), Error<T>>)
    ensures r.Err? <==> c.locked
    ensures r.Err? ==> r.error == Locked
    ensures r.Ok? ==> (r.value.1 <==> obj !in c.ranks)
    ensures r.Ok? ==> r.value.0.ranks == c.ranks[obj := c.counter]
    ensures r.Ok? ==> r.value.0.counter == c.counter + 1
    ensures r.Ok? ==> !r.value.0.locked && r.value.0.unknownObjectBehavior == c.unknownObjectBehavior
  {
    match CheckLocked(c)
    case Err(e) => Err(e)
    case Ok(_) =>
      var previous := if obj in c.ranks then Some(c.ranks[obj]) else None;
      Ok((c.(ranks := c.ranks[obj := c.counter], counter := c.counter + 1), previous.None?))
  }

  /**
    Gives `newObj` the same position as `existingObj`, which must already be
    known. Returns whether `newObj` was unknown before.
   */
  function AddAsEqual<T>(c: Comparator<T>, existingObj: T, newObj: T): (r: Result<(Comparator<T>, bool), Error<T>>)
    ensures c.locked ==> r == Err(Locked)
    ensures !c.locked && existingObj !in c.ranks ==> r == Err(NotKnown(existingObj))
    ensures r.Ok? <==> !c.locked && existingObj in c.ranks
    ensures r.Ok? ==> (r.value.1 <==> newObj !in c.ranks)
    ensures r.Ok? ==> r.value.0.ranks == c.ranks[newObj := c.ranks[existingObj]]
    ensures r.Ok? ==> r.value.0.counter == c.counter && !r.value.0.locked
    ensures r.Ok? ==> r.value.0.unknownObjectBehavior == c.unknownObjectBehavior
  {
    match CheckLocked(c)
    case Err(e) => Err(e)
    case Ok(_) =>
      if existingObj !in c.ranks then Err(NotKnown(existingObj))
      else
        var position := c.ranks[existingObj];
        var previous := if newObj in c.ranks then Some(c.ranks[newObj]) else None;
        Ok((c.(ranks := c.ranks[newObj := position]), previous.None?))
  }

  // Comparing
  //---------------------------------------------------------------------------

  /**
    Compares two elements by their positions. The comparator is locked
    first, so the returned state is locked whether or not the comparison
    succeeds.
   */
  function Compare<T>(c: Comparator<T>, obj1: T, obj2: T): (r: (Comparator<T>, Result<int, Error<T>>))
    ensures r.0 == c.(locked := true)
    ensures obj1 in c.ranks && obj2 in c.ranks ==>
      r.1.Ok? && r.1.value == Sign(c.ranks[obj1] - c.ranks[obj2])
    ensures (obj1 !in c.ranks || obj2 !in c.ranks) && c.unknownObjectBehavior == UNKNOWN_THROW_EXCEPTION ==>
      r.1 == Err(UnknownObject(if obj1 !in c.ranks then obj1 else obj2))
    ensures (obj1 !in c.ranks || obj2 !in c.ranks) && !IsBehavior(c.unknownObjectBehavior) ==>
      r.1 == Err(UnsupportedBehavior(c.unknownObjectBehavior))
    ensures r.1.Ok? ==> r.1.value in {-1, 0, 1}
  {
    var c' := c.(locked := true);
    var position1 := if obj1 in c'.ranks then Some(c'.ranks[obj1]) else None;
    var position2 := if obj2 in c'.ranks then Some(c'.ranks[obj2]) else None;
    if position1.None? || position2.None? then
      if c'.unknownObjectBehavior == UNKNOWN_BEFORE then
        if position1.None? then (c', Ok(if position2.None? then 0 else -1)) else (c', Ok(1))
      else if c'.unknownObjectBehavior == UNKNOWN_AFTER then
        if position1.None? then (c', Ok(if position2.None? then 0 else 1)) else (c', Ok(-1))
      else if c'.unknownObjectBehavior == UNKNOWN_THROW_EXCEPTION then
        (c', Err(UnknownObject(if position1.None? then obj1 else obj2)))
      else
        (c', Err(UnsupportedBehavior(c'.unknownObjectBehavior)))
    else
      (c', Ok(Sign(position1.value - position2.value)))
  }

  // Properties
  //---------------------------------------------------------------------------

  /** `i` is the last position at which `x` occurs in `s`. */
  ghost predicate LastOccurrence<T>(s: seq<T>, i: int) {
    0 <= i < |s| && forall j :: i < j < |s| ==> s[j] != s[i]
  }

  /**
    After adding a sequence, exactly the old elements and the sequence's
    items are known, and elements not in the sequence keep their positions.
   */
  lemma {:induction false} AddAllKeys<T>(c: Comparator<T>, items: seq<T>)
    requires !c.locked
    ensures AddAll(c, items).Ok?
    ensures var c' := AddAll(c, items).value;
      && c'.ranks.Keys == c.ranks.Keys + (set x | x in items)
      && forall x :: x in c.ranks && x !in items ==> c'.ranks[x] == c.ranks[x]
    decreases |items|
  {
    if |items| > 0 {
      var front := items[..|items| - 1];
      AddAllKeys(c, front);
      assert (set x | x in items) == (set x | x in front) + {items[|items| - 1]} by {
        assert items == front + [items[|items| - 1]];
      }
    }
  }

  /**
    After adding a sequence, every item has the position of its LAST
    occurrence, offset by the old counter.
   */
  lemma {:induction false} AddAllLastOccurrence<T>(c: Comparator<T>, items: seq<T>, i: int)
    requires !c.locked && LastOccurrence(items, i)
    ensures AddAll(c, items).Ok?
    ensures items[i] in AddAll(c, items).value.ranks
    ensures AddAll(c, items).value.ranks[items[i]] == c.counter + i
    decreases |items|
  {
    var front := items[..|items| - 1];
    if i < |items| - 1 {
      assert LastOccurrence(front, i);
      AddAllLastOccurrence(c, front, i);
    }
  }

  /** Adding a sequence to a valid comparator keeps it valid. */
  lemma {:induction false} AddAllValid<T>(c: Comparator<T>, items: seq<T>)
    requires !c.locked && Valid(c)
    ensures AddAll(c, items).Ok? && Valid(AddAll(c, items).value)
    decreases |items|
  {
    if |items| > 0 {
      AddAllValid(c, items[..|items| - 1]);
    }
  }

  /**
    A comparator built from a list ranks its items by the position of their
    last occurrence: among items at their last occurrences, an earlier one
    compares below a later one.
   */
  lemma FromItemsOrder<T>(items: seq<T>, i: int, j: int)
    requires LastOccurrence(items, i) && LastOccurrence(items, j)
    ensures FromItems(Some(items)).Ok?
    ensures var c := FromItems(Some(items)).value;
      items[i] in c.ranks && c.ranks[items[i]] == i && Compare(c, items[i], items[j]).1 == Ok(Sign(i - j))
  {
    AddAllLastOccurrence(Empty(), items, i);
    AddAllLastOccurrence(Empty(), items, j);
  }

  /**
    A successful `add` gives `obj` a position strictly above every other
    known element, and keeps the invariant.
   */
  lemma AddRanksLast<T>(c: Comparator<T>, obj: T)
    requires Valid(c) && !c.locked
    ensures Add(c, obj).Ok?
    ensures var c' := Add(c, obj).value.0;
      && Valid(c')
      && (forall y :: y in c'.ranks && y != obj ==> c'.ranks[y] < c'.ranks[obj])
  {
  }

  /** `addAsEqual` keeps the invariant and aliased elements compare equal. */
  lemma AddAsEqualAliases<T>(c: Comparator<T>, existingObj: T, newObj: T)
    requires Valid(c) && !c.locked && existingObj in c.ranks
    ensures AddAsEqual(c, existingObj, newObj).Ok?
    ensures var c' := AddAsEqual(c, existingObj, newObj).value.0;
      && Valid(c')
      && Compare(c', newObj, existingObj).1 == Ok(0)
      && Compare(c', existingObj, newObj).1 == Ok(0)
  {
  }

  /**
    After any comparison the comparator refuses every mutation and the
    refusal changes nothing.
   */
  lemma LockedAfterCompare<T>(c: Comparator<T>, a: T, b: T, x: T, y: T, flag: int)
    ensures var c' := Compare(c, a, b).0;
      && IsLocked(c')
      && Add(c', x) == Err(Locked)
      && AddAsEqual(c', x, y) == Err(Locked)
      && SetUnknownObjectBehavior(c', flag) == Err(Locked)
      && Compare(c', x, y).0 == c'
  {
  }

  /** A valid comparator never reaches the `default` branch of compare. */
  lemma ValidNeverUnsupported<T>(c: Comparator<T>, a: T, b: T)
    requires Valid(c)
    ensures !Compare(c, a, b).1.Err? || Compare(c, a, b).1.error.UnknownObject?
    ensures Compare(c, a, b).1.Err? <==>
      c.unknownObjectBehavior == UNKNOWN_THROW_EXCEPTION && (a !in c.ranks || b !in c.ranks)
  {
  }

  /**
    Under UNKNOWN_BEFORE an unknown element compares below every known one
    and two unknown elements compare equal; UNKNOWN_AFTER is the mirror image.
   */
  lemma UnknownPolicies<T>(c: Comparator<T>, known: T, u1: T, u2: T)
    requires known in c.ranks && u1 !in c.ranks && u2 !in c.ranks
    ensures c.unknownObjectBehavior == UNKNOWN_BEFORE ==>
      && Compare(c, u1, known).1 == Ok(-1)
      && Compare(c, known, u1).1 == Ok(1)
      && Compare(c, u1, u2).1 == Ok(0)
    ensures c.unknownObjectBehavior == UNKNOWN_AFTER ==>
      && Compare(c, u1, known).1 == Ok(1)
      && Compare(c, known, u1).1 == Ok(-1)
      && Compare(c, u1, u2).1 == Ok(0)
    ensures c.unknownObjectBehavior == UNKNOWN_THROW_EXCEPTION ==>
      && Compare(c, u1, known).1 == Err(UnknownObject(u1))
      && Compare(c, known, u1).1 == Err(UnknownObject(u1))
      && Compare(c, u1, u2).1 == Err(UnknownObject(u1))
  {
  }

  /**
    Comparison is antisymmetric: swapping the operands negates the result,
    and under the throwing policy both orders fail.
   */
  lemma CompareAntisymmetric<T>(c: Comparator<T>, a: T, b: T)
    requires Valid(c)
    ensures Compare(c, a, b).1.Ok? <==> Compare(c, b, a).1.Ok?
    ensures Compare(c, a, b).1.Ok? ==> Compare(c, b, a).1.value == -Compare(c, a, b).1.value
  {
  }

  /**
    For a valid comparator whose policy does not throw, "compares at most"
    is transitive, so compare is a total preorder.
   */
  lemma CompareTransitive<T>(c: Comparator<T>, a: T, b: T, d: T)
    requires Valid(c) && c.unknownObjectBehavior != UNKNOWN_THROW_EXCEPTION
    requires Compare(c, a, b).1.value <= 0 && Compare(c, b, d).1.value <= 0
    ensures Compare(c, a, d).1.Ok? && Compare(c, a, d).1.value <= 0
  {
  }

  /** The comparator of the class documentation's example, before any aliasing. */
  lemma PlanetsRanks()
    ensures FromItems(Some(["Mercury", "Venus", "Earth", "Mars"])).Ok?
    ensures var c := FromItems(Some(["Mercury", "Venus", "Earth", "Mars"])).value;
      && c.ranks.Keys == {"Mercury", "Venus", "Earth", "Mars"}
      && c.ranks["Mercury"] == 0 && c.ranks["Venus"] == 1 && c.ranks["Earth"] == 2 && c.ranks["Mars"] == 3
  {
    var items := ["Mercury", "Venus", "Earth", "Mars"];
    FromItemsOrder(items, 0, 0);
    FromItemsOrder(items, 1, 1);
    FromItemsOrder(items, 2, 2);
    FromItemsOrder(items, 3, 3);
  }

  /** The worked example of the class documentation, with "Venus" aliased to "Earth". */
  lemma PlanetsExample()
    ensures FromItems(Some(["Mercury", "Venus", "Earth", "Mars"])).Ok?
    ensures var c := AddAsEqual(FromItems(Some(["Mercury", "Venus", "Earth", "Mars"])).value, "Earth", "Venus");
      && c == Ok((c.value.0, false))
      && Compare(c.value.0, "Mercury", "Earth").1 == Ok(-1)
      && Compare(c.value.0, "Mars", "Venus").1 == Ok(1)
      && Compare(c.value.0, "Venus", "Earth").1 == Ok(0)
      && Compare(c.value.0, "Saturn", "Mars").1 == Err(UnknownObject("Saturn"))
  {
    PlanetsRanks();
    var c0 := FromItems(Some(["Mercury", "Venus", "Earth", "Mars"])).value;
    var c1 := AddAsEqual(c0, "Earth", "Venus").value.0;
    assert c1.ranks == c0.ranks["Venus" := 2];
    assert "Saturn" !in c1.ranks;
  }
}

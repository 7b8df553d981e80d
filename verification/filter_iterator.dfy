/**
  An iterator that decorates another iterator and lets through only the
  elements a predicate accepts. It looks one element ahead: `hasNext` finds
  and caches the next accepted element, and `next` hands out the cached
  element before scanning again.

  The decorated iterator is a cursor over a sequence: the elements, the
  position of the next element, and whether `remove` is currently allowed
  (the `java.util.Iterator` contract).
 */
module Iterators {
  import opened Results

  /** The exceptions the iterator raises. */
  datatype Error =
    | NoSuchElement  // NoSuchElementException from next
    | IllegalState   // IllegalStateException from remove

  // The decorated iterator
  //---------------------------------------------------------------------------

  /** A cursor over `elements`; `canRemove` holds after a `next` not yet followed by a `remove`. */
  datatype Inner<T> = Inner(elements: seq<T>, position: nat, canRemove: bool)

  predicate InnerValid<T>(it: Inner<T>) {
    it.position <= |it.elements| && (it.canRemove ==> 0 < it.position)
  }

  function InnerHasNext<T>(it: Inner<T>): bool {
    it.position < |it.elements|
  }

  /** Removes the element the last `next` returned, once. */
  function InnerRemove<T>(it: Inner<T>): (r: Result<Inner<T>, Error>)
    requires InnerValid(it)
    ensures r.Err? <==> !it.canRemove
    ensures r.Err? ==> r.error == IllegalState
    ensures r.Ok? ==>
      && it.canRemove && InnerValid(r.value) && !r.value.canRemove
      && |r.value.elements| == |it.elements| - 1 && r.value.position == it.position - 1
      && r.value.elements[..r.value.position] == it.elements[..it.position - 1]
      && r.value.elements[r.value.position..] == it.elements[it.position..]
  {
    if !it.canRemove then Err(IllegalState)
    else Ok(Inner(it.elements[..it.position - 1] + it.elements[it.position..], it.position - 1, false))
  }

  // The filtering iterator
  //---------------------------------------------------------------------------

  /**
    The decorated iterator and predicate, either of which may be unset, and
    the cached next element: `Some` exactly when it has been computed and not
    yet returned.
   */
  datatype FilterIterator<!T> = FilterIterator(
    inner: Option<Inner<T>>,
    pred: Option<T -> bool>,
    nextObject: Option<T>)

  predicate Configured<T>(f: FilterIterator<T>) {
    f.inner.Some? && f.pred.Some?
  }

  /**
    The states in which `hasNext` and `next` dereference nothing unset: the
    decorated iterator is set, and so is the predicate unless the decorated
    iterator is already exhausted, since the scanning loop then never
    evaluates it. On every other state both throw NullPointerException.
   */
  predicate Usable<T>(f: FilterIterator<T>) {
    f.inner.Some? && (f.pred.Some? || !InnerHasNext(f.inner.value))
  }

  /**
    The invariant of reachable iterators: a cached element implies both
    dependencies are set, and it is the element the decorated iterator
    returned last.
   */
  ghost predicate Wf<T>(f: FilterIterator<T>) {
    && (f.inner.Some? ==> InnerValid(f.inner.value))
    && (f.nextObject.Some? ==> Configured(f) && JustReturned(f.inner.value, f.nextObject.value))
  }

  /** `x` is the element `it` returned last, and it may still be removed. */
  ghost predicate JustReturned<T>(it: Inner<T>, x: T) {
    0 < it.position <= |it.elements| && it.canRemove && it.elements[it.position - 1] == x
  }

  /** The elements of `s` that `pred` accepts, in order. */
  function Filter<T>(pred: T -> bool, s: seq<T>): (r: seq<T>)
    ensures |r| <= |s|
    ensures forall i :: 0 <= i < |r| ==> pred(r[i])
  {
    if |s| == 0 then []
    else (if pred(s[0]) then [s[0]] else []) + Filter(pred, s[1..])
  }

  /**
    The accepted elements the decorated iterator has not yet produced; none
    when the predicate is unset, as the decorated iterator is then exhausted.
   */
  function Pending<T>(f: FilterIterator<T>): seq<T>
    requires Wf(f) && Usable(f)
  {
    if f.pred.None? then []
    else Filter(f.pred.value, f.inner.value.elements[f.inner.value.position..])
  }

  /** Everything the iterator will still produce: the cached element, then the pending ones. */
  function Remaining<T>(f: FilterIterator<T>): seq<T>
    requires Wf(f) && Usable(f)
  {
    (if f.nextObject.Some? then [f.nextObject.value] else []) + Pending(f)
  }

  /** Unconsumed work: inner elements left plus the cached element. */
  function Measure<T>(f: FilterIterator<T>): nat
    requires Wf(f) && f.inner.Some?
  {
    |f.inner.value.elements| - f.inner.value.position + (if f.nextObject.Some? then 1 else 0)
  }

  // Construction and configuration
  //---------------------------------------------------------------------------

  /** A filter iterator whose iterator and predicate are set later (either may be null). */
  function Create<T>(inner: Option<Inner<T>>, pred: Option<T -> bool>): (f: FilterIterator<T>)
    requires inner.Some? ==> InnerValid(inner.value)
    ensures Wf(f) && f.nextObject.None?
    ensures f.inner == inner && f.pred == pred
  {
    FilterIterator(inner, pred, None)
  }

  function GetIterator<T>(f: FilterIterator<T>): Option<Inner<T>> {
    f.inner
  }

  function GetPredicate<T>(f: FilterIterator<T>): Option<T -> bool> {
    f.pred
  }

  /** Replaces the decorated iterator and discards the cached element. */
  function SetIterator<T>(f: FilterIterator<T>, inner: Option<Inner<T>>): (r: FilterIterator<T>)
    requires inner.Some? ==> InnerValid(inner.value)
    requires Wf(f)
    ensures Wf(r) && r.nextObject.None?
    ensures GetIterator(r) == inner && GetPredicate(r) == GetPredicate(f)
  {
    f.(inner := inner, nextObject := None)
  }

  /** Replaces the predicate and discards the cached element. */
  function SetPredicate<T>(f: FilterIterator<T>, pred: Option<T -> bool>): (r: FilterIterator<T>)
    requires Wf(f)
    ensures Wf(r) && r.nextObject.None?
    ensures GetPredicate(r) == pred && GetIterator(r) == GetIterator(f)
  {
    f.(pred := pred, nextObject := None)
  }

  // Iteration
  //---------------------------------------------------------------------------

  /**
    The scanning loop: from position `p`, steps over the elements of `s`
    until one is accepted. Returns the position just past the last element
    looked at and whether it was accepted. Every element stepped over is
    rejected, and the accepted elements from `p` on are the found element
    followed by the accepted elements after the new position. Each step is
    one `next` of the decorated iterator: it yields `s[p]` and moves the
    cursor to `p + 1`, and `SetNextObject` records that a step allows `remove`.
   */
  function Scan<T>(accepts: T -> bool, s: seq<T>, p: nat): (r: (nat, bool))
    requires p <= |s|
    ensures p <= r.0 <= |s|
    ensures r.1 ==> p < r.0 && accepts(s[r.0 - 1])
    ensures !r.1 ==> r.0 == |s|
    ensures forall j :: p <= j < r.0 && !(r.1 && j == r.0 - 1) ==> !accepts(s[j])
    ensures Filter(accepts, s[p..]) == (if r.1 then [s[r.0 - 1]] else []) + Filter(accepts, s[r.0..])
    decreases |s| - p
  {
    if p == |s| then (p, false)
    else
      assert s[p..] == [s[p]] + s[p + 1..];
      if accepts(s[p]) then (p + 1, true)
      else Scan(accepts, s, p + 1)
  }

  /**
    Advances the decorated iterator to the next accepted element and caches
    it. On success the cursor is just past the cached element and every
    element skipped on the way was rejected; on failure the cursor is at the
    end and every element it passed was rejected. Over an exhausted decorated
    iterator the loop body never runs, so nothing changes.
   */
  function SetNextObject<T>(f: FilterIterator<T>): (r: (FilterIterator<T>, bool))
    requires Wf(f) && Usable(f) && f.nextObject.None?
    ensures Wf(r.0) && Usable(r.0)
    ensures r.0.pred == f.pred && r.0.inner.value.elements == f.inner.value.elements
    ensures r.1 <==> Pending(f) != []
    ensures r.1 <==> r.0.nextObject.Some?
    ensures r.1 ==> r.0.nextObject.value == Pending(f)[0] && Pending(r.0) == Pending(f)[1..]
    ensures !InnerHasNext(f.inner.value) ==> r == (f, false)
    ensures var p, p' := f.inner.value.position, r.0.inner.value.position;
      && (r.1 ==> p < p' && f.inner.value.elements[p' - 1] == r.0.nextObject.value)
      && (!r.1 ==> p' == |f.inner.value.elements|)
      && (f.pred.Some? ==>
            forall j :: p <= j < p' && !(r.1 && j == p' - 1) ==> !f.pred.value(f.inner.value.elements[j]))
      && r.0.inner.value.canRemove == (f.inner.value.canRemove || p < p')
  {
    var it := f.inner.value;
    if !InnerHasNext(it) then (f, false)
    else
      var (q, found) := Scan(f.pred.value, it.elements, it.position);
      var advanced := Inner(it.elements, q, it.canRemove || it.position < q);
      if found then (f.(inner := Some(advanced), nextObject := Some(it.elements[q - 1])), true)
      else (f.(inner := Some(advanced)), false)
  }

  /**
    Whether an accepted element remains. Scans (and caches) only when
    nothing is cached, so the elements still to be produced do not change.
   */
  function HasNext<T>(f: FilterIterator<T>): (r: (FilterIterator<T>, bool))
    requires Wf(f) && Usable(f)
    ensures Wf(r.0) && Usable(r.0) && r.0.pred == f.pred
    ensures r.0.inner.value.elements == f.inner.value.elements
    ensures r.1 <==> Remaining(f) != []
    ensures r.1 <==> r.0.nextObject.Some?
    ensures Remaining(r.0) == Remaining(f)
    ensures f.nextObject.Some? ==> r.0 == f
    ensures !r.1 ==> r.0.inner.value.position == |r.0.inner.value.elements|
  {
    if f.nextObject.Some? then (f, true)
    else SetNextObject(f)
  }

  /**
    Returns the cached element, or scans for the next accepted one; fails
    when none remains. Either way nothing is cached afterwards.
   */
  function Next<T>(f: FilterIterator<T>): (r: (FilterIterator<T>, Result<T, Error>))
    requires Wf(f) && Usable(f)
    ensures Wf(r.0) && Usable(r.0) && r.0.nextObject.None? && r.0.pred == f.pred
    ensures r.0.inner.value.elements == f.inner.value.elements
    ensures r.1.Ok? <==> Remaining(f) != []
    ensures r.1.Ok? ==> r.1.value == Remaining(f)[0] && Remaining(r.0) == Remaining(f)[1..]
    ensures r.1.Ok? ==> Measure(r.0) < Measure(f)
    ensures r.1.Ok? ==> JustReturned(r.0.inner.value, r.1.value)
    ensures r.1.Err? ==> r.1.error == NoSuchElement
    ensures r.1.Err? ==> r.0.inner.value.position == |r.0.inner.value.elements|
  {
    var (f', found) := HasNext(f);
    if !found then (f', Err(NoSuchElement))
    else
      HandOutCached(f');
      (f'.(nextObject := None), Ok(f'.nextObject.value))
  }

  /**
    Handing out the cached element: it is the first of the remaining ones,
    the rest remain, and the decorated iterator still returned it last.
   */
  lemma HandOutCached<T>(f: FilterIterator<T>)
    requires Wf(f) && Usable(f) && f.nextObject.Some?
    ensures var f' := f.(nextObject := None);
      && Wf(f') && Usable(f')
      && Remaining(f) == [f.nextObject.value] + Remaining(f')
      && Measure(f') < Measure(f)
      && JustReturned(f'.inner.value, f.nextObject.value)
  {
    assert Pending(f.(nextObject := None)) == Pending(f);
  }

  /**
    Removes from the decorated collection the element the decorated iterator
    returned last. Refused while an element is cached, because the scan has
    already moved the decorated iterator past the element `next` returned.
   */
  function Remove<T>(f: FilterIterator<T>): (r: Result<FilterIterator<T>, Error>)
    requires Wf(f) && (f.nextObject.Some? || f.inner.Some?)
    ensures f.nextObject.Some? ==> r == Err(IllegalState)
    ensures f.nextObject.None? ==> (r.Ok? <==> f.inner.value.canRemove)
    ensures r.Err? ==> r.error == IllegalState
    ensures r.Ok? ==> Wf(r.value) && r.value.nextObject.None? && r.value.pred == f.pred
    ensures r.Ok? ==> r.value.inner == Some(InnerRemove(f.inner.value).value)
  {
    if f.nextObject.Some? then Err(IllegalState)
    else
      match InnerRemove(f.inner.value)
      case Err(e) => Err(e)
      case Ok(removed) => Ok(f.(inner := Some(removed)))
  }

  // Properties
  //---------------------------------------------------------------------------

  /** Calling `hasNext` twice is calling it once: the second call changes nothing. */
  lemma HasNextIdempotent<T>(f: FilterIterator<T>)
    requires Wf(f) && Usable(f)
    ensures var (f1, b1) := HasNext(f);
      HasNext(f1) == (f1, b1)
  {
    var (f1, b1) := HasNext(f);
    if !b1 {
      assert f1.nextObject.None?;
      var it := f1.inner.value;
      assert !InnerHasNext(it);
    }
  }

  /**
    `next` after a `hasNext` that answered true returns exactly the element
    `hasNext` found, without touching the decorated iterator, and clears the
    cache.
   */
  lemma NextAfterHasNext<T>(f: FilterIterator<T>)
    requires Wf(f) && Usable(f)
    requires Remaining(f) != []
    ensures var f1 := HasNext(f).0;
      && Next(f1).1 == Ok(f1.nextObject.value)
      && f1.nextObject.value == Remaining(f)[0]
      && Next(f1).0 == f1.(nextObject := None)
  {
  }

  /** Draining with `next` until it fails: the produced elements in order. */
  function Drain<T>(f: FilterIterator<T>): seq<T>
    requires Wf(f) && Usable(f)
    decreases Measure(f)
  {
    var n := Next(f);
    if n.1.Err? then [] else [n.1.value] + Drain(n.0)
  }

  /**
    Draining produces exactly the cached element (if any) followed by the
    remaining inner elements the predicate accepts, in order.
   */
  lemma {:induction false} DrainIsRemaining<T>(f: FilterIterator<T>)
    requires Wf(f) && Usable(f)
    ensures Drain(f) == Remaining(f)
    decreases Measure(f)
  {
    var n := Next(f);
    if n.1.Ok? {
      DrainIsRemaining(n.0);
      assert Drain(f) == [n.1.value] + Drain(n.0);
      assert Remaining(f) == [n.1.value] + Remaining(n.0);
    } else {
      assert Drain(f) == [];
    }
  }

  /**
    A fresh filter iterator over a whole sequence produces the filtered
    sequence; so does one re-bound to a fresh iterator over it, whatever it
    had cached before.
   */
  lemma DrainFresh<T>(f: FilterIterator<T>, s: seq<T>, pred: T -> bool)
    requires Wf(f)
    ensures Drain(Create(Some(Inner(s, 0, false)), Some(pred))) == Filter(pred, s)
    ensures Drain(SetPredicate(SetIterator(f, Some(Inner(s, 0, false))), Some(pred))) == Filter(pred, s)
  {
    DrainIsRemaining(Create(Some(Inner(s, 0, false)), Some(pred)));
    DrainIsRemaining(SetPredicate(SetIterator(f, Some(Inner(s, 0, false))), Some(pred)));
    assert s[0..] == s;
  }

  predicate IsEven(x: int) {
    x % 2 == 0
  }

  /** Filtering 1..6 for even numbers keeps 2, 4 and 6. */
  lemma FilterEvens()
    ensures Filter(IsEven, [1, 2, 3, 4, 5, 6]) == [2, 4, 6]
  {
  }

  /** Draining a filter for even numbers over 1..6 produces 2, 4 and 6. */
  lemma EvenExample()
    ensures Drain(Create(Some(Inner([1, 2, 3, 4, 5, 6], 0, false)), Some(IsEven))) == [2, 4, 6]
  {
    DrainFresh(Create<int>(None, None), [1, 2, 3, 4, 5, 6], IsEven);
    FilterEvens();
  }

  /**
    When nothing accepted remains, `hasNext` answers false and `next` fails,
    both leaving the decorated iterator at its end.
   */
  lemma ExhaustedIterator<T>(f: FilterIterator<T>)
    requires Wf(f) && Usable(f) && Remaining(f) == []
    ensures !HasNext(f).1
    ensures Next(f).1 == Err(NoSuchElement)
    ensures HasNext(f).0.inner.value.position == |f.inner.value.elements|
    ensures Next(f).0.inner.value.position == |f.inner.value.elements|
  {
  }

  /**
    Without a predicate, an exhausted decorated iterator still answers: the
    scanning loop never evaluates the predicate, so `hasNext` is false and
    `next` fails with NoSuchElement, neither changing anything.
   */
  lemma UnsetPredicateOverExhausted<T>(it: Inner<T>)
    requires InnerValid(it) && !InnerHasNext(it)
    ensures var f := Create(Some(it), None);
      && HasNext(f) == (f, false)
      && Next(f) == (f, Err(NoSuchElement))
  {
  }

  /**
    `remove` right after a successful `next` removes exactly the element
    `next` returned from the decorated collection.
   */
  lemma RemoveAfterNextRemovesReturned<T>(f: FilterIterator<T>)
    requires Wf(f) && Usable(f)
    requires Remaining(f) != []
    ensures var (f1, x) := Next(f);
      var it, it1 := f.inner.value, f1.inner.value;
      && Remove(f1).Ok?
      && it1.elements[it1.position - 1] == x.value
      && Remove(f1).value.inner.value.elements ==
           it1.elements[..it1.position - 1] + it1.elements[it1.position..]
      && it1.elements == it.elements
  {
    var (f1, x) := Next(f);
    var it1 := f1.inner.value;
    var it2 := Remove(f1).value.inner.value;
    assert it2.elements == it2.elements[..it2.position] + it2.elements[it2.position..];
  }

  /** While an element is cached, `remove` is refused and changes nothing. */
  lemma RemoveRefusedAfterHasNext<T>(f: FilterIterator<T>)
    requires Wf(f) && Usable(f)
    requires Remaining(f) != []
    ensures Remove(HasNext(f).0) == Err(IllegalState)
  {
  }

  // Finding: `remove` after a `hasNext` that found nothing
  //---------------------------------------------------------------------------

  /**
    As written, `remove` is refused only while an element is cached. A
    `hasNext` that scans to the end without an accepted element moves the
    decorated iterator but caches nothing, so the `remove` that follows
    deletes the last REJECTED element rather than the one `next` returned:
    over [2, 3] with "is even", `next` returns 2, `hasNext` answers false
    after stepping over 3, and `remove` then deletes 3.
   */
  lemma RemoveAfterFailedHasNextDeletesRejected()
    ensures var f0 := Create(Some(Inner([2, 3], 0, false)), Some(IsEven));
      && Next(f0).1 == Ok(2)
      && var f1 := Next(f0).0;
      && !HasNext(f1).1
      && Remove(HasNext(f1).0).Ok?
      && Remove(HasNext(f1).0).value.inner.value.elements == [2]
  {
    var s := [2, 3];
    var f0 := Create(Some(Inner(s, 0, false)), Some(IsEven));
    assert Scan(IsEven, s, 0) == (1, true);
    var f1 := FilterIterator(Some(Inner(s, 1, true)), Some(IsEven), None);
    assert SetNextObject(f0) == (f1.(nextObject := Some(2)), true);
    assert Next(f0) == (f1, Ok(2));
    assert Scan(IsEven, s, 2) == (2, false);
    assert Scan(IsEven, s, 1) == (2, false);
    var f2 := FilterIterator(Some(Inner(s, 2, true)), Some(IsEven), None);
    assert HasNext(f1) == (f2, false);
    assert s[..1] + s[2..] == [2];
    assert Remove(f2) == Ok(f2.(inner := Some(Inner([2], 1, false))));
  }

  /**
    The evidently intended behaviour: `remove` is refused whenever `hasNext`
    was called since the last `next`, whatever it answered. The filter
    iterator is paired with a flag recording such a call.
   */
  datatype Guarded<!T> = Guarded(f: FilterIterator<T>, peeked: bool)

  /** Without a `hasNext` since the last `next`, nothing is cached. */
  ghost predicate GuardedWf<T>(g: Guarded<T>) {
    Wf(g.f) && (!g.peeked ==> g.f.nextObject.None?)
  }

  function GuardedHasNext<T>(g: Guarded<T>): (r: (Guarded<T>, bool))
    requires GuardedWf(g) && Usable(g.f)
    ensures GuardedWf(r.0) && r.0.peeked && Usable(r.0.f)
    ensures (r.0.f, r.1) == HasNext(g.f)
  {
    var (f', found) := HasNext(g.f);
    (Guarded(f', true), found)
  }

  function GuardedNext<T>(g: Guarded<T>): (r: (Guarded<T>, Result<T, Error>))
    requires GuardedWf(g) && Usable(g.f)
    ensures GuardedWf(r.0) && !r.0.peeked && Usable(r.0.f)
    ensures (r.0.f, r.1) == Next(g.f)
  {
    var (f', x) := Next(g.f);
    (Guarded(f', false), x)
  }

  /** The corrected `remove`: refused after any `hasNext` since the last `next`. */
  function GuardedRemove<T>(g: Guarded<T>): (r: Result<Guarded<T>, Error>)
    requires GuardedWf(g) && g.f.inner.Some?
    ensures g.peeked ==> r == Err(IllegalState)
    ensures !g.peeked ==> (r.Ok? <==> Remove(g.f).Ok?)
    ensures r.Err? ==> r.error == IllegalState
    ensures r.Ok? ==> GuardedWf(r.value) && !r.value.peeked
    ensures r.Ok? ==> Remove(g.f).Ok? && r.value.f == Remove(g.f).value
  {
    if g.peeked then Err(IllegalState)
    else
      match Remove(g.f)
      case Err(e) => Err(e)
      case Ok(f') => Ok(Guarded(f', false))
  }

  /**
    With the correction, `remove` after a successful `next` deletes exactly
    the returned element, and after a further `hasNext` it is refused,
    whatever `hasNext` answered.
   */
  lemma GuardedRemoveDeletesReturned<T>(g: Guarded<T>)
    requires GuardedWf(g) && Usable(g.f)
    requires Remaining(g.f) != []
    ensures var (g1, x) := GuardedNext(g);
      var it1 := g1.f.inner.value;
      && GuardedRemove(g1).Ok?
      && it1.elements[it1.position - 1] == x.value
      && GuardedRemove(g1).value.f.inner.value.elements ==
           it1.elements[..it1.position - 1] + it1.elements[it1.position..]
      && GuardedRemove(GuardedHasNext(g1).0) == Err(IllegalState)
  {
    var g1 := GuardedNext(g).0;
    var it2 := GuardedRemove(g1).value.f.inner.value;
    assert it2.elements == it2.elements[..it2.position] + it2.elements[it2.position..];
  }

  /** On the input that exposes the discrepancy, the corrected `remove` is refused. */
  lemma GuardedRemoveRefusesAfterFailedHasNext()
    ensures var g0 := Guarded(Create(Some(Inner([2, 3], 0, false)), Some(IsEven)), false);
      var g1 := GuardedNext(g0).0;
      && !GuardedHasNext(g1).1
      && GuardedRemove(GuardedHasNext(g1).0) == Err(IllegalState)
  {
    RemoveAfterFailedHasNextDeletesRejected();
  }
}

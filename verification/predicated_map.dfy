/**
  A map decorator that validates every pair added to the decorated map
  against an optional key predicate and an optional value predicate. An
  absent predicate imposes no constraint.
 */
module Maps {
  import opened Results

  /** The exceptions the decorator raises. */
  datatype Error<K, V> =
    | NullMap                    // IllegalArgumentException: the map to decorate is null
    | KeyRejected(key: K)        // IllegalArgumentException: the key predicate refused `key`
    | ValueRejected(value: V)    // IllegalArgumentException: the value predicate refused `value`
    | SetValueRejected(value: V) // IllegalArgumentException: checkSetValue refused `value`
    | NullValuePredicate         // NullPointerException: checkSetValue without a value predicate
    | NullMapToCopy              // NullPointerException: putAll of a null map

  /** The decorated map and the two optional predicates. */
  datatype PredicatedMap<!K, !V> = PredicatedMap(
    inner: map<K, V>,
    keyPredicate: Option<K -> bool>,
    valuePredicate: Option<V -> bool>)

  /** An optional predicate accepts `x`: absent, or set and true of `x`. */
  predicate Accepts<X>(pred: Option<X -> bool>, x: X) {
    pred.None? || pred.value(x)
  }

  /** A pair passes both predicates that are set. */
  predicate Admissible<K, V>(keyPredicate: Option<K -> bool>, valuePredicate: Option<V -> bool>, key: K, value: V) {
    Accepts(keyPredicate, key) && Accepts(valuePredicate, value)
  }

  /** Every pair of `m` passes both predicates that are set. */
  ghost predicate AllAdmissible<K, V>(keyPredicate: Option<K -> bool>, valuePredicate: Option<V -> bool>, m: map<K, V>) {
    forall k :: k in m ==> Admissible(keyPredicate, valuePredicate, k, m[k])
  }

  /** The invariant: every entry of the decorated map satisfies the set predicates. */
  ghost predicate Valid<K, V>(pm: PredicatedMap<K, V>) {
    AllAdmissible(pm.keyPredicate, pm.valuePredicate, pm.inner)
  }

  /**
    Checks one pair: the key first, so a pair failing both predicates is
    reported as a rejected key.
   */
  function Validate<K, V>(keyPredicate: Option<K -> bool>, valuePredicate: Option<V -> bool>, key: K, value: V): (r: Result<(), Error<K, V>>)
    ensures r.Ok? <==> Admissible(keyPredicate, valuePredicate, key, value)
    ensures !Accepts(keyPredicate, key) ==> r == Err(KeyRejected(key))
    ensures Accepts(keyPredicate, key) && !Accepts(valuePredicate, value) ==> r == Err(ValueRejected(value))
  {
    if keyPredicate.Some? && !keyPredicate.value(key) then Err(KeyRejected(key))
    else if valuePredicate.Some? && !valuePredicate.value(value) then Err(ValueRejected(value))
    else Ok(())
  }

  /**
    Validates every pair of `m`, visiting the pairs in an unspecified order
    (the order of the map's entry iterator). Succeeds exactly when every pair
    is admissible; otherwise the error names a pair of `m` that fails, and
    says of it what `Validate` says.
   */
  method ValidateAll<K, V(==)>(keyPredicate: Option<K -> bool>, valuePredicate: Option<V -> bool>, m: map<K, V>)
    returns (r: Result<(), Error<K, V>>)
    ensures r.Ok? <==> AllAdmissible(keyPredicate, valuePredicate, m)
    ensures r.Err? ==> exists k :: k in m && r == Validate(keyPredicate, valuePredicate, k, m[k])
  {
    var remaining := m.Keys;
    while remaining != {}
      invariant remaining <= m.Keys
      invariant forall k :: k in m && k !in remaining ==> Admissible(keyPredicate, valuePredicate, k, m[k])
      decreases remaining
    {
      var k :| k in remaining;
      var checked := Validate(keyPredicate, valuePredicate, k, m[k]);
      if checked.Err? {
        return checked;
      }
      remaining := remaining - {k};
    }
    return Ok(());
  }

  /**
    Decorates a (possibly null) map. Every existing pair is validated and
    construction fails at a pair that does not pass.
   */
  method Decorate<K, V(==)>(m: Option<map<K, V>>, keyPredicate: Option<K -> bool>, valuePredicate: Option<V -> bool>)
    returns (r: Result<PredicatedMap<K, V>, Error<K, V>>)
    ensures m.None? ==> r.Err? && r.error == NullMap
    ensures r.Ok? <==> m.Some? && AllAdmissible(keyPredicate, valuePredicate, m.value)
    ensures r.Ok? ==> Valid(r.value)
    ensures r.Ok? ==> r.value.inner == m.value && r.value.keyPredicate == keyPredicate && r.value.valuePredicate == valuePredicate
    ensures r.Err? && m.Some? ==>
      exists k :: k in m.value && Validate(keyPredicate, valuePredicate, k, m.value[k]) == Err(r.error)
  {
    if m.None? {
      return Err(NullMap);
    }
    var checked := ValidateAll(keyPredicate, valuePredicate, m.value);
    if checked.Err? {
      return Err(checked.error);
    }
    return Ok(PredicatedMap(m.value, keyPredicate, valuePredicate));
  }

  /**
    Checks a value set through an entry of the map: returned unchanged when
    the value predicate accepts it. Without a value predicate the Java class
    dereferences null.
   */
  function CheckSetValue<K, V>(pm: PredicatedMap<K, V>, value: V): (r: Result<V, Error<K, V>>)
    ensures pm.valuePredicate.None? ==> r == Err(NullValuePredicate)
    ensures pm.valuePredicate.Some? ==> (r.Ok? <==> pm.valuePredicate.value(value))
    ensures r.Ok? ==> r.value == value
    ensures pm.valuePredicate.Some? && r.Err? ==> r.error == SetValueRejected(value)
  {
    match pm.valuePredicate
    case None => Err(NullValuePredicate)
    case Some(pred) => if !pred(value) then Err(SetValueRejected(value)) else Ok(value)
  }

  /**
    Whether values set through entries are checked: when it holds,
    `checkSetValue` accepts exactly what the value predicate accepts; when it
    does not, `checkSetValue` cannot be called safely for any value.
   */
  function IsSetValueChecking<K, V(!new)>(pm: PredicatedMap<K, V>): (r: bool)
    ensures r ==> forall v :: CheckSetValue(pm, v).Ok? <==> Accepts(pm.valuePredicate, v)
    ensures !r ==> forall v :: CheckSetValue(pm, v) == Err(NullValuePredicate)
  {
    pm.valuePredicate.Some?
  }

  /**
    Validates the pair, then stores it; returns the value `key` had before,
    if any. A rejected pair leaves the map as it was.
   */
  function Put<K, V>(pm: PredicatedMap<K, V>, key: K, value: V): (r: Result<(PredicatedMap<K, V>, Option<V>), Error<K, V>>)
    ensures r.Ok? <==> Admissible(pm.keyPredicate, pm.valuePredicate, key, value)
    ensures r.Err? ==> r.error == Validate(pm.keyPredicate, pm.valuePredicate, key, value).error
    ensures r.Ok? ==> r.value.0.inner == pm.inner[key := value]
    ensures r.Ok? ==> r.value.0.keyPredicate == pm.keyPredicate && r.value.0.valuePredicate == pm.valuePredicate
    ensures r.Ok? ==> (r.value.1.Some? <==> key in pm.inner)
    ensures r.Ok? && key in pm.inner ==> r.value.1.value == pm.inner[key]
  {
    match Validate(pm.keyPredicate, pm.valuePredicate, key, value)
    case Err(e) => Err(e)
    case Ok(_) =>
      var previous := if key in pm.inner then Some(pm.inner[key]) else None;
      Ok((pm.(inner := pm.inner[key := value]), previous))
  }

  /**
    Validates every pair of a (possibly null) `mapToCopy` before copying any
    of them: either all pairs are copied (overriding existing keys) or the map
    is left unmodified. A null map fails when its entries are asked for.
   */
  method PutAll<K, V(==)>(pm: PredicatedMap<K, V>, mapToCopy: Option<map<K, V>>) returns (r: Result<PredicatedMap<K, V>, Error<K, V>>)
    ensures mapToCopy.None? ==> r == Err(NullMapToCopy)
    ensures r.Ok? <==> mapToCopy.Some? && AllAdmissible(pm.keyPredicate, pm.valuePredicate, mapToCopy.value)
    ensures r.Ok? ==> r.value.keyPredicate == pm.keyPredicate && r.value.valuePredicate == pm.valuePredicate
    ensures r.Ok? ==> r.value.inner.Keys == pm.inner.Keys + mapToCopy.value.Keys
    ensures r.Ok? ==> forall k :: k in mapToCopy.value ==> r.value.inner[k] == mapToCopy.value[k]
    ensures r.Ok? ==> forall k :: k in pm.inner && k !in mapToCopy.value ==> r.value.inner[k] == pm.inner[k]
    ensures Valid(pm) && r.Ok? ==> Valid(r.value)
    ensures r.Err? && mapToCopy.Some? ==>
      exists k :: k in mapToCopy.value && Validate(pm.keyPredicate, pm.valuePredicate, k, mapToCopy.value[k]) == Err(r.error)
  {
    if mapToCopy.None? {
      return Err(NullMapToCopy);
    }
    var checked := ValidateAll(pm.keyPredicate, pm.valuePredicate, mapToCopy.value);
    if checked.Err? {
      return Err(checked.error);
    }
    if Valid(pm) {
      OverridePreservesValid(pm, mapToCopy.value);
    }
    return Ok(pm.(inner := pm.inner + mapToCopy.value));
  }

  // Properties
  //---------------------------------------------------------------------------

  /** A successful `put` keeps the invariant. */
  lemma PutPreservesValid<K, V>(pm: PredicatedMap<K, V>, key: K, value: V)
    requires Valid(pm)
    ensures Put(pm, key, value).Ok? ==> Valid(Put(pm, key, value).value.0)
  {
  }

  /** Overriding a valid map with an all-admissible map keeps the invariant, as `putAll` does. */
  lemma OverridePreservesValid<K, V>(pm: PredicatedMap<K, V>, mapToCopy: map<K, V>)
    requires Valid(pm) && AllAdmissible(pm.keyPredicate, pm.valuePredicate, mapToCopy)
    ensures Valid(pm.(inner := pm.inner + mapToCopy))
  {
  }

  /**
    When values are checked, replacing the value of an existing entry with a
    value `checkSetValue` accepts keeps the invariant.
   */
  lemma CheckedSetValuePreservesValid<K, V(!new)>(pm: PredicatedMap<K, V>, key: K, value: V)
    requires Valid(pm) && key in pm.inner && IsSetValueChecking(pm)
    requires CheckSetValue(pm, value).Ok?
    ensures Valid(pm.(inner := pm.inner[key := CheckSetValue(pm, value).value]))
  {
  }

  /**
    `checkSetValue` is safe to call exactly when `isSetValueChecking` holds;
    then it accepts a value iff the value predicate does.
   */
  lemma SetValueCheckingGuard<K, V(!new)>(pm: PredicatedMap<K, V>, value: V)
    ensures IsSetValueChecking(pm) <==> !CheckSetValue(pm, value).Err? || CheckSetValue(pm, value).error != NullValuePredicate
    ensures IsSetValueChecking(pm) ==> (CheckSetValue(pm, value).Ok? <==> Accepts(pm.valuePredicate, value))
  {
  }

  /** Without predicates nothing is rejected: `put` is plain map update. */
  lemma UnconstrainedPut<K, V>(m: map<K, V>, key: K, value: V)
    ensures var pm := PredicatedMap(m, None, None);
      && Valid(pm)
      && Put(pm, key, value).Ok?
      && Put(pm, key, value).value.0.inner == m[key := value]
  {
  }
}

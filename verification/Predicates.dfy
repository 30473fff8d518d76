/** Stable predicate keys and the registry that orders them (`predicate.rs`). */
module Predicates {
  import opened Outcomes
  import opened Sorting
  import opened Order

  type Byte = b: int | 0 <= b < 256

  const MAX_REGISTERED_PREDICATES: nat := 64
  const MAX_PREDICATE_COMPONENT_BYTES: nat := 64

  datatype PredicateKey = PredicateKey(namespace: seq<Byte>, name: seq<Byte>)

  datatype Component = Namespace | Name

  datatype ComponentError = Empty | TooLong | InvalidCharacter

  datatype RegistryError =
    | InvalidComponent(component: Component, reason: ComponentError)
    | TooManyPredicates(distinct: nat)

  /** Lowercase ASCII letters, digits, `.`, `_` and `-`. */
  predicate AllowedByte(b: Byte) {
    97 <= b <= 122 || 48 <= b <= 57 || b == 46 || b == 95 || b == 45
  }

  predicate ValidComponent(text: seq<Byte>) {
    0 < |text| <= MAX_PREDICATE_COMPONENT_BYTES && forall b <- text :: AllowedByte(b)
  }

  predicate ValidKey(key: PredicateKey) {
    ValidComponent(key.namespace) && ValidComponent(key.name)
  }

  /** `validate_component`. */
  function ValidateComponent(component: Component, text: seq<Byte>): (r: Result<(), RegistryError>)
    ensures r.Success? <==> ValidComponent(text)
  {
    if text == [] then Failure(InvalidComponent(component, Empty))
    else if |text| > MAX_PREDICATE_COMPONENT_BYTES then Failure(InvalidComponent(component, TooLong))
    else if !forall b <- text :: AllowedByte(b) then Failure(InvalidComponent(component, InvalidCharacter))
    else Success(())
  }

  /** `PredicateKey::new`. */
  function NewKey(namespace: seq<Byte>, name: seq<Byte>): (r: Result<PredicateKey, RegistryError>)
    ensures r.Success? <==> ValidComponent(namespace) && ValidComponent(name)
    ensures r.Success? ==> ValidKey(r.value)
  {
    var _ :- ValidateComponent(Namespace, namespace);
    var _ :- ValidateComponent(Name, name);
    Success(PredicateKey(namespace, name))
  }

  // ----- the byte order on keys -----

  function CompareBytes(a: seq<Byte>, b: seq<Byte>): Ordering {
    if a == [] || b == [] then CompareNat(|a|, |b|)
    else CompareNat(a[0], b[0]).Then(CompareBytes(a[1..], b[1..]))
  }

  /** The derived `Ord`: namespace, then name. */
  function CompareKeys(a: PredicateKey, b: PredicateKey): Ordering {
    CompareBytes(a.namespace, b.namespace).Then(CompareBytes(a.name, b.name))
  }

  const KeyLeq: (PredicateKey, PredicateKey) -> bool :=
    (a: PredicateKey, b: PredicateKey) => CompareKeys(a, b) != Greater

  lemma {:induction false} BytesOrder(a: seq<Byte>, b: seq<Byte>)
    ensures CompareBytes(a, b) == Equal <==> a == b
    ensures CompareBytes(b, a) == CompareBytes(a, b).Reverse()
  {
    if a != [] && b != [] {
      BytesOrder(a[1..], b[1..]);
      assert a == [a[0]] + a[1..] && b == [b[0]] + b[1..];
    }
  }

  lemma {:induction false} BytesTransitive(a: seq<Byte>, b: seq<Byte>, c: seq<Byte>)
    requires CompareBytes(a, b) == Less && CompareBytes(b, c) == Less
    ensures CompareBytes(a, c) == Less
  {
    if a != [] && b != [] && c != [] && a[0] == b[0] && b[0] == c[0] {
      BytesTransitive(a[1..], b[1..], c[1..]);
    }
  }

  lemma {:induction false} KeysAreTotallyOrdered()
    ensures TotalOrder(KeyLeq)
  {
    forall a, b ensures KeyLeq(a, b) || KeyLeq(b, a) {
      BytesOrder(a.namespace, b.namespace);
      BytesOrder(a.name, b.name);
    }
    forall a, b | KeyLeq(a, b) && KeyLeq(b, a) ensures a == b {
      BytesOrder(a.namespace, b.namespace);
      BytesOrder(a.name, b.name);
    }
    forall a, b, c | KeyLeq(a, b) && KeyLeq(b, c) ensures KeyLeq(a, c) {
      BytesOrder(a.namespace, b.namespace);
      BytesOrder(b.namespace, c.namespace);
      BytesOrder(a.name, b.name);
      BytesOrder(b.name, c.name);
      if a.namespace != b.namespace && b.namespace != c.namespace {
        BytesTransitive(a.namespace, b.namespace, c.namespace);
      } else if a.namespace == b.namespace && b.namespace == c.namespace && a.name != b.name && b.name != c.name {
        BytesTransitive(a.name, b.name, c.name);
      }
    }
  }

  // ----- the registry -----

  /** Keys in id order: an id is a position. */
  datatype PredicateRegistry = PredicateRegistry(keys: seq<PredicateKey>) {

    ghost predicate Valid() {
      |keys| <= MAX_REGISTERED_PREDICATES && Strict(keys, KeyLeq)
    }

    /** `PredicateRegistry::id`. */
    function Id(key: PredicateKey): Option<nat> {
      IndexFrom(key, 0)
    }

    function IndexFrom(key: PredicateKey, start: nat): (r: Option<nat>)
      ensures r.Some? ==> start <= r.value < |keys| && keys[r.value] == key
      ensures r.None? ==> forall i :: start <= i < |keys| ==> keys[i] != key
      decreases |keys| - start
    {
      if start >= |keys| then None
      else if keys[start] == key then Some(start)
      else IndexFrom(key, start + 1)
    }

    /** `PredicateRegistry::key`. */
    function Key(id: nat): Option<PredicateKey> {
      if id < |keys| then Some(keys[id]) else None
    }
  }

  /** `PredicateRegistry::from_keys`. */
  function FromKeys(keys: seq<PredicateKey>): Result<PredicateRegistry, RegistryError> {
    var unique := SortDedup(keys, KeyLeq);
    if |unique| > MAX_REGISTERED_PREDICATES then Failure(TooManyPredicates(|unique|))
    else Success(PredicateRegistry(unique))
  }

  /** A built registry holds exactly the given keys, and ids and keys are inverse to one another. */
  lemma {:induction false} FromKeysIndexes(keys: seq<PredicateKey>, key: PredicateKey, id: nat)
    requires FromKeys(keys).Success?
    ensures FromKeys(keys).value.Valid()
    ensures FromKeys(keys).value.Id(key).Some? <==> key in keys
    ensures FromKeys(keys).value.Id(key) == Some(id) <==> FromKeys(keys).value.Key(id) == Some(key)
  {
    KeysAreTotallyOrdered();
    SortDedupStrict(keys, KeyLeq);
    var unique := SortDedup(keys, KeyLeq);
    if key in unique {
      var i :| 0 <= i < |unique| && unique[i] == key;
    }
  }

  /** Construction order and repetition do not change a registry, its capacity error included. */
  lemma {:induction false} FromKeysBySet(xs: seq<PredicateKey>, ys: seq<PredicateKey>)
    requires SameMembers(xs, ys)
    ensures FromKeys(xs) == FromKeys(ys)
  {
    KeysAreTotallyOrdered();
    SortDedupBySet(xs, ys, KeyLeq);
  }

  /** Ids follow key order. */
  lemma {:induction false} IdsFollowKeys(registry: PredicateRegistry, i: nat, j: nat)
    requires registry.Valid() && i < |registry.keys| && j < |registry.keys|
    ensures i == j <==> registry.keys[i] == registry.keys[j]
    ensures i <= j <==> KeyLeq(registry.keys[i], registry.keys[j])
  {
    KeysAreTotallyOrdered();
    var keys := registry.keys;
    assert i < j ==> KeyLeq(keys[i], keys[j]) && keys[i] != keys[j];
    assert j < i ==> KeyLeq(keys[j], keys[i]) && keys[j] != keys[i];
  }
}

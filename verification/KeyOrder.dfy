/** The order of predicate keys and so of ids, byte by byte (`predicate.rs`). */
module KeyOrder {
  import opened Outcomes
  import opened Sorting
  import opened Order
  import opened Predicates

  /** At the first difference the lower byte comes first; a proper prefix comes first. */
  ghost predicate BytesBefore(a: seq<Byte>, b: seq<Byte>) {
    exists k: nat :: LowerAt(a, b, k)
  }

  ghost predicate LowerAt(a: seq<Byte>, b: seq<Byte>, k: nat) {
    k <= |a| && k < |b| && a[..k] == b[..k] && (k == |a| || a[k] < b[k])
  }

  lemma {:induction false} CompareBytesIsBefore(a: seq<Byte>, b: seq<Byte>)
    ensures CompareBytes(a, b) == Less <==> BytesBefore(a, b)
  {
    if b == [] {
    } else if a == [] {
      assert LowerAt(a, b, 0);
    } else {
      CompareBytesIsBefore(a[1..], b[1..]);
      FirstByte(a, b);
    }
  }

  lemma {:induction false} NextByte(a: seq<Byte>, b: seq<Byte>, k: nat)
    requires a != [] && b != []
    ensures LowerAt(a, b, k + 1) <==> a[0] == b[0] && LowerAt(a[1..], b[1..], k)
  {
    if k + 1 <= |a| && k + 1 < |b| {
      assert a[..k + 1] == [a[0]] + a[1..][..k] && b[..k + 1] == [b[0]] + b[1..][..k];
    }
  }

  lemma {:induction false} FirstByte(a: seq<Byte>, b: seq<Byte>)
    requires a != [] && b != []
    ensures BytesBefore(a, b) <==> a[0] < b[0] || (a[0] == b[0] && BytesBefore(a[1..], b[1..]))
  {
    if BytesBefore(a, b) {
      var k: nat :| LowerAt(a, b, k);
      if k > 0 {
        NextByte(a, b, k - 1);
      }
    }
    if a[0] < b[0] {
      assert LowerAt(a, b, 0);
    } else if a[0] == b[0] && BytesBefore(a[1..], b[1..]) {
      var k: nat :| LowerAt(a[1..], b[1..], k);
      NextByte(a, b, k);
    }
  }

  /** Namespace first, then name. */
  ghost predicate KeyBefore(a: PredicateKey, b: PredicateKey) {
    BytesBefore(a.namespace, b.namespace) || (a.namespace == b.namespace && BytesBefore(a.name, b.name))
  }

  lemma {:induction false} CompareKeysIsBefore(a: PredicateKey, b: PredicateKey)
    ensures CompareKeys(a, b) == Less <==> KeyBefore(a, b)
    ensures CompareKeys(a, b) == Equal <==> a == b
  {
    CompareBytesIsBefore(a.namespace, b.namespace);
    CompareBytesIsBefore(a.name, b.name);
    BytesOrder(a.namespace, b.namespace);
    BytesOrder(a.name, b.name);
  }

  /** Along the ids of a registry namespaces never descend, and within one namespace names ascend. */
  lemma {:induction false} IdsAscend(registry: PredicateRegistry, i: nat, j: nat)
    requires registry.Valid() && i < j < |registry.keys|
    ensures KeyBefore(registry.keys[i], registry.keys[j])
  {
    CompareKeysIsBefore(registry.keys[i], registry.keys[j]);
  }

  /** The distinct keys of a list. */
  function Distinct(keys: seq<PredicateKey>): set<PredicateKey> {
    set k | k in keys
  }

  /** A registry is refused exactly when it would hold more than 64 distinct keys, and the error counts them. */
  lemma {:induction false} TooManyKeys(keys: seq<PredicateKey>)
    ensures FromKeys(keys).Success? <==> |Distinct(keys)| <= 64
    ensures FromKeys(keys).Failure? ==> FromKeys(keys).error == TooManyPredicates(|Distinct(keys)|)
  {
    var unique := SortDedup(keys, KeyLeq);
    KeysAreTotallyOrdered();
    SortDedupStrict(keys, KeyLeq);
    DistinctSize(unique);
    assert Distinct(keys) == Distinct(unique);
  }

  lemma {:induction false} DistinctSize(keys: seq<PredicateKey>)
    requires Strict(keys, KeyLeq)
    ensures |Distinct(keys)| == |keys|
  {
    if keys != [] {
      var front, last := keys[..|keys| - 1], keys[|keys| - 1];
      DistinctSize(front);
      assert Distinct(keys) == Distinct(front) + {last};
    }
  }

  /** Exactly the lower-case letters, the digits, the full stop, the underscore and the hyphen are allowed. */
  lemma {:induction false} AllowedCharacters(c: char)
    requires c as int < 256
    ensures AllowedByte(c as int)
       <==> 'a' <= c <= 'z' || '0' <= c <= '9' || c == '.' || c == '_' || c == '-'
  {
  }

  /** The first thing wrong with a component is reported: empty, over 64 bytes, or a character outside the alphabet. */
  lemma {:induction false} ComponentErrors(component: Component, text: seq<Byte>)
    ensures var r := ValidateComponent(component, text);
            if text == [] then r == Failure(InvalidComponent(component, Empty))
            else if |text| > 64 then r == Failure(InvalidComponent(component, TooLong))
            else if exists b <- text :: !AllowedByte(b) then r == Failure(InvalidComponent(component, InvalidCharacter))
            else r == Success(())
  {
  }

  /** A key reports its namespace before its name. */
  lemma {:induction false} KeyErrors(namespace: seq<Byte>, name: seq<Byte>)
    ensures var r := NewKey(namespace, name);
            if ValidateComponent(Namespace, namespace).Failure? then
              r == Failure(ValidateComponent(Namespace, namespace).error)
            else if ValidateComponent(Name, name).Failure? then r == Failure(ValidateComponent(Name, name).error)
            else r == Success(PredicateKey(namespace, name))
  {
  }
}

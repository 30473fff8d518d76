/** Fingerprints that cannot collide: canonical expressions one byte apart (`canonical.rs`). */
module Collisions {
  import opened Outcomes
  import opened Expressions
  import opened Bounds
  import opened Predicates
  import opened Canonical
  import opened Encoding
  import opened Fingerprint

  ghost predicate OneByteApart(s: seq<Byte>, t: seq<Byte>) {
    |s| == |t| && exists k: nat :: ApartAt(s, t, k)
  }

  ghost predicate ApartAt(s: seq<Byte>, t: seq<Byte>, k: nat)
    requires |s| == |t|
  {
    k < |s| && s[k] != t[k] && forall i :: 0 <= i < |s| && i != k ==> s[i] == t[i]
  }

  /** The same expression but for one constant, or one byte of one predicate key. */
  ghost predicate NearMiss(a: KeyedExpr, b: KeyedExpr)
    decreases a
  {
    match a
    case KConst(value) => b == KConst(!value)
    case KAtom(key) => b.KAtom? && KeysApart(key, b.key)
    case KNot(inner) => b.KNot? && NearMiss(inner, b.inner)
    case KAll(items) => b.KAll? && NearMissEach(items, b.items)
    case KAny(items) => b.KAny? && NearMissEach(items, b.items)
    case KXor(lhs, rhs) => b.KXor? && ((NearMiss(lhs, b.lhs) && rhs == b.rhs) || (lhs == b.lhs && NearMiss(rhs, b.rhs)))
    case KImplies(lhs, rhs) =>
      b.KImplies? && ((NearMiss(lhs, b.lhs) && rhs == b.rhs) || (lhs == b.lhs && NearMiss(rhs, b.rhs)))
  }

  ghost predicate NearMissEach(xs: seq<KeyedExpr>, ys: seq<KeyedExpr>)
    decreases xs
  {
    && |xs| == |ys| > 0
    && ((NearMiss(xs[0], ys[0]) && xs[1..] == ys[1..]) || (xs[0] == ys[0] && NearMissEach(xs[1..], ys[1..])))
  }

  ghost predicate KeysApart(a: PredicateKey, b: PredicateKey) {
    || (a.namespace == b.namespace && OneByteApart(a.name, b.name))
    || (OneByteApart(a.namespace, b.namespace) && a.name == b.name)
  }

  lemma {:induction false} ApartAfter(before: seq<Byte>, s: seq<Byte>, t: seq<Byte>)
    requires OneByteApart(s, t)
    ensures OneByteApart(before + s, before + t)
  {
    var k: nat :| ApartAt(s, t, k);
    assert ApartAt(before + s, before + t, |before| + k);
  }

  lemma {:induction false} ApartBefore(s: seq<Byte>, t: seq<Byte>, after: seq<Byte>)
    requires OneByteApart(s, t)
    ensures OneByteApart(s + after, t + after)
  {
    var k: nat :| ApartAt(s, t, k);
    assert ApartAt(s + after, t + after, k);
  }

  lemma {:induction false} ConstantsApart(value: bool)
    ensures OneByteApart(Encode(KConst(value)), Encode(KConst(!value)))
  {
    var zero, one := Encode(KConst(false)), Encode(KConst(true));
    assert LittleEndian(1, 8) == [1] + LittleEndian(0, 7) && LittleEndian(0, 8) == [0] + LittleEndian(0, 7);
    assert zero == [99, 35] + [0] + LittleEndian(0, 7) && one == [99, 35] + [1] + LittleEndian(0, 7);
    assert ApartAt([0], [1], 0) && ApartAt([1], [0], 0);
    ApartAfter([99, 35], [0], [1]);
    ApartBefore([99, 35] + [0], [99, 35] + [1], LittleEndian(0, 7));
    ApartAfter([99, 35], [1], [0]);
    ApartBefore([99, 35] + [1], [99, 35] + [0], LittleEndian(0, 7));
  }

  lemma {:induction false} TextsApart(s: seq<Byte>, t: seq<Byte>)
    requires OneByteApart(s, t)
    ensures OneByteApart(EncodeText(s), EncodeText(t))
  {
    ApartAfter([115] + EncodeNumber(|s|), s, t);
  }

  lemma {:induction false} AtomsApart(a: PredicateKey, b: PredicateKey)
    requires KeysApart(a, b)
    ensures OneByteApart(Encode(KAtom(a)), Encode(KAtom(b)))
  {
    if a.namespace == b.namespace && OneByteApart(a.name, b.name) {
      TextsApart(a.name, b.name);
      Assoc([112], EncodeText(a.namespace), EncodeText(a.name), []);
      Assoc([112], EncodeText(b.namespace), EncodeText(b.name), []);
      ApartAfter([112] + EncodeText(a.namespace), EncodeText(a.name), EncodeText(b.name));
    } else {
      TextsApart(a.namespace, b.namespace);
      ApartAfter([112], EncodeText(a.namespace), EncodeText(b.namespace));
      Assoc([112], EncodeText(a.namespace), EncodeText(a.name), []);
      Assoc([112], EncodeText(b.namespace), EncodeText(b.name), []);
      ApartBefore([112] + EncodeText(a.namespace), [112] + EncodeText(b.namespace), EncodeText(a.name));
    }
  }

  lemma {:induction false} PairApart(tag: Byte, a: KeyedExpr, b: KeyedExpr, c: KeyedExpr, d: KeyedExpr)
    requires (OneByteApart(Encode(a), Encode(b)) && c == d) || (a == b && OneByteApart(Encode(c), Encode(d)))
    ensures OneByteApart([tag] + (Encode(a) + Encode(c)), [tag] + (Encode(b) + Encode(d)))
  {
    Assoc([tag], Encode(a), Encode(c), []);
    Assoc([tag], Encode(b), Encode(d), []);
    if c == d && OneByteApart(Encode(a), Encode(b)) {
      ApartAfter([tag], Encode(a), Encode(b));
      ApartBefore([tag] + Encode(a), [tag] + Encode(b), Encode(c));
    } else {
      ApartAfter([tag] + Encode(a), Encode(c), Encode(d));
    }
  }

  /** A near miss changes exactly one byte of the encoding. */
  lemma {:induction false} NearMissEncodings(a: KeyedExpr, b: KeyedExpr)
    requires NearMiss(a, b)
    ensures OneByteApart(Encode(a), Encode(b))
    decreases a
  {
    match a
    case KConst(value) => ConstantsApart(value);
    case KAtom(key) => AtomsApart(key, b.key);
    case KNot(inner) =>
      NearMissEncodings(inner, b.inner);
      ApartAfter([110], Encode(inner), Encode(b.inner));
    case KAll(_) | KAny(_) =>
      NearMissEachEncodings(a.items, b.items);
      Assoc([Tag(a)], EncodeNumber(|a.items|), EncodeEach(a.items), []);
      Assoc([Tag(b)], EncodeNumber(|b.items|), EncodeEach(b.items), []);
      ApartAfter([Tag(a)] + EncodeNumber(|a.items|), EncodeEach(a.items), EncodeEach(b.items));
    case KXor(_, _) | KImplies(_, _) =>
      if a.lhs == b.lhs && NearMiss(a.rhs, b.rhs) {
        NearMissEncodings(a.rhs, b.rhs);
      } else {
        NearMissEncodings(a.lhs, b.lhs);
      }
      PairApart(Tag(a), a.lhs, b.lhs, a.rhs, b.rhs);
  }

  lemma {:induction false} NearMissEachEncodings(xs: seq<KeyedExpr>, ys: seq<KeyedExpr>)
    requires NearMissEach(xs, ys)
    ensures OneByteApart(EncodeEach(xs), EncodeEach(ys))
    decreases xs
  {
    if xs[0] == ys[0] && NearMissEach(xs[1..], ys[1..]) {
      NearMissEachEncodings(xs[1..], ys[1..]);
      ApartAfter(Encode(xs[0]), EncodeEach(xs[1..]), EncodeEach(ys[1..]));
    } else {
      NearMissEncodings(xs[0], ys[0]);
      ApartBefore(Encode(xs[0]), Encode(ys[0]), EncodeEach(xs[1..]));
    }
  }

  /** Near misses never share a hash. */
  lemma {:induction false} NearMissNeverCollides(a: KeyedExpr, b: KeyedExpr)
    requires NearMiss(a, b)
    ensures Hash(Stream(a)) != Hash(Stream(b))
  {
    var header := [118] + EncodeNumber(BOOLEAN_EXPRESSION_SCHEMA_V1);
    NearMissEncodings(a, b);
    ApartAfter(header, Encode(a), Encode(b));
    assert Stream(a) == header + Encode(a) && Stream(b) == header + Encode(b);
    var k: nat :| ApartAt(Stream(a), Stream(b), k);
    OneByteNeverCollides(Stream(a), Stream(b), k);
  }

  /**
   Expressions whose canonical forms differ in one constant, or in one byte of one key,
   never share a fingerprint, whichever registries number their predicates.
   */
  lemma {:induction false} FingerprintsNeverCollide(e: BoolExpr, from: PredicateRegistry, f: BoolExpr,
      to: PredicateRegistry)
    requires FingerprintResult(e, from).Success? && FingerprintResult(f, to).Success?
    requires NearMiss(Resolve(Canon(e), from).value, Resolve(Canon(f), to).value)
    ensures FingerprintResult(e, from) != FingerprintResult(f, to)
  {
    NearMissNeverCollides(Resolve(Canon(e), from).value, Resolve(Canon(f), to).value);
  }

  /** Every length in an accepted canonical form over well-formed keys fits its field. */
  lemma {:induction false} AcceptedFits(e: BoolExpr, registry: PredicateRegistry)
    requires FingerprintResult(e, registry).Success? && forall key <- registry.keys :: ValidKey(key)
    ensures Fits(Resolve(Canon(e), registry).value)
  {
    ScanDecidesWithin(e, SHAPE_LIMITS);
    CanonNoLarger(e);
    BoundedFits(Canon(e), registry);
  }

  /**
   Two accepted expressions feed the hasher the same bytes exactly when they have the same
   canonical form over stable keys.
   */
  lemma {:induction false} SameBytesSameExpression(e: BoolExpr, from: PredicateRegistry, f: BoolExpr,
      to: PredicateRegistry)
    requires FingerprintResult(e, from).Success? && FingerprintResult(f, to).Success?
    requires (forall key <- from.keys :: ValidKey(key)) && forall key <- to.keys :: ValidKey(key)
    ensures Stream(Resolve(Canon(e), from).value) == Stream(Resolve(Canon(f), to).value)
       <==> Resolve(Canon(e), from) == Resolve(Canon(f), to)
  {
    AcceptedFits(e, from);
    AcceptedFits(f, to);
    StreamsDiffer(Resolve(Canon(e), from).value, Resolve(Canon(f), to).value);
  }
}

/** The stable hasher and canonical fingerprints (`canonical.rs`). */
module Fingerprint {
  import opened Outcomes
  import opened Expressions
  import opened Predicates
  import opened Encoding
  import opened Canonical

  const OFFSET: nat := 0xcbf2_9ce4_8422_2325
  const BOOLEAN_EXPRESSION_SCHEMA_V1: nat := 1

  // A `u64` state is a number below TWO_TO_64, so that wrapping is written out.

  /** Exclusive-or of two `width`-bit numbers. */
  function XorBits(a: nat, b: nat, width: nat): nat {
    if width == 0 then 0
    else (if a % 2 == b % 2 then 0 else 1) + 2 * XorBits(a / 2, b / 2, width - 1)
  }

  /** `state ^ u64::from(byte)`: only the lowest byte is touched. */
  function XorByte(state: nat, byte: Byte): nat {
    256 * (state / 256) + XorBits(state % 256, byte, 8)
  }

  /** `wrapping_mul(PRIME)`. */
  function TimesPrime(x: nat): nat {
    (x * 0x0000_0100_0000_01b3) % 0x1_0000_0000_0000_0000
  }

  /** `absorb`. */
  function Absorb(state: nat, byte: Byte): nat {
    TimesPrime(XorByte(state, byte))
  }

  /** The state after a whole stream. */
  function Hash(stream: seq<Byte>): (h: nat)
    ensures h < TWO_TO_64
  {
    if stream == [] then OFFSET
    else Absorb(Hash(stream[..|stream| - 1]), stream[|stream| - 1])
  }

  // ----- injectivity of each step -----

  /** Multiplication by the odd prime is undone by its inverse modulo 2^64. */
  lemma {:induction false} PrimeInverse(x: nat) returns (k: int)
    ensures x == TimesPrime(x) * 0xce96_5057_aff6_957b - 0x1_0000_0000_0000_0000 * k
  {
    var product := x * 0x0000_0100_0000_01b3;
    var q := product / 0x1_0000_0000_0000_0000;
    assert product == q * 0x1_0000_0000_0000_0000 + TimesPrime(x);
    assert 0x0000_0100_0000_01b3 * 0xce96_5057_aff6_957b == 1 + 0xce_9650_590f * 0x1_0000_0000_0000_0000;
    k := 0xce_9650_590f * x - q * 0xce96_5057_aff6_957b;
  }

  lemma {:induction false} TimesPrimeInjective(x: nat, y: nat)
    requires x < TWO_TO_64 && y < TWO_TO_64 && TimesPrime(x) == TimesPrime(y)
    ensures x == y
  {
    var j := PrimeInverse(x);
    var k := PrimeInverse(y);
    assert x - y == 0x1_0000_0000_0000_0000 * (k - j);
  }

  function Power2(width: nat): nat {
    if width == 0 then 1 else 2 * Power2(width - 1)
  }

  lemma {:induction false} XorBitsInjective(a: nat, b: nat, c: nat, d: nat, width: nat)
    requires a < Power2(width) && b < Power2(width) && c < Power2(width) && d < Power2(width)
    ensures XorBits(a, b, width) < Power2(width)
    ensures XorBits(a, b, width) == XorBits(c, d, width) ==> (a == c <==> b == d)
  {
    if width > 0 {
      XorBitsInjective(a / 2, b / 2, c / 2, d / 2, width - 1);
    }
  }

  lemma {:induction false} XorByteBound(s: nat, a: Byte)
    requires s < TWO_TO_64
    ensures XorByte(s, a) < TWO_TO_64 && XorByte(s, a) / 256 == s / 256
    ensures XorByte(s, a) % 256 == XorBits(s % 256, a, 8)
  {
    assert Power2(8) == 256;
    XorBitsInjective(s % 256, a, s % 256, a, 8);
  }

  lemma {:induction false} XorByteInjective(s: nat, t: nat, a: Byte, b: Byte)
    requires s < TWO_TO_64 && t < TWO_TO_64 && XorByte(s, a) == XorByte(t, b)
    ensures s == t <==> a == b
  {
    XorByteBound(s, a);
    XorByteBound(t, b);
    assert Power2(8) == 256;
    XorBitsInjective(s % 256, a, t % 256, b, 8);
  }

  /** For a fixed byte the step is injective in the state, and for a fixed state in the byte. */
  lemma {:induction false} AbsorbInjective(s: nat, t: nat, a: Byte, b: Byte)
    requires s < TWO_TO_64 && t < TWO_TO_64 && Absorb(s, a) == Absorb(t, b)
    ensures s == t <==> a == b
  {
    XorByteBound(s, a);
    XorByteBound(t, b);
    TimesPrimeInjective(XorByte(s, a), XorByte(t, b));
    XorByteInjective(s, t, a, b);
  }

  /** Streams of one length that differ in exactly one byte never collide. */
  lemma {:induction false} OneByteNeverCollides(s: seq<Byte>, t: seq<Byte>, k: nat)
    requires |s| == |t| && k < |s| && s[k] != t[k]
    requires forall i :: 0 <= i < |s| && i != k ==> s[i] == t[i]
    ensures Hash(s) != Hash(t)
  {
    var last := |s| - 1;
    var front, other := s[..last], t[..last];
    if k == last {
      assert front == other;
    } else {
      OneByteNeverCollides(front, other, k);
    }
    if Hash(s) == Hash(t) {
      AbsorbInjective(Hash(front), Hash(other), s[last], t[last]);
    }
  }

  // ----- the hasher object -----

  // Appending the parts of an encoding one by one appends the encoding.

  lemma {:induction false} TextStream(start: seq<Byte>, text: seq<Byte>)
    ensures start + [115] + EncodeNumber(|text|) + text == start + EncodeText(text)
  {
    Assoc(start, [115], EncodeNumber(|text|), text);
  }

  lemma {:induction false} AtomStream(start: seq<Byte>, key: PredicateKey)
    ensures start + [112] + EncodeText(key.namespace) + EncodeText(key.name) == start + Encode(KAtom(key))
  {
    Assoc(start, [112], EncodeText(key.namespace), EncodeText(key.name));
  }

  lemma {:induction false} NotStream(start: seq<Byte>, k: KeyedExpr)
    ensures start + [110] + Encode(k) == start + Encode(KNot(k))
  {
    Assoc(start, [110], Encode(k), []);
  }

  lemma {:induction false} GroupStream(start: seq<Byte>, k: KeyedExpr)
    requires k.KAll? || k.KAny?
    ensures start + [Tag(k)] + EncodeNumber(|k.items|) + EncodeEach(k.items) == start + Encode(k)
  {
    Assoc(start, [Tag(k)], EncodeNumber(|k.items|), EncodeEach(k.items));
  }

  /** `StableHasher`; `stream` records every byte absorbed so far. */
  class StableHasher {
    var state: nat
    ghost var stream: seq<Byte>

    ghost predicate Valid()
      reads this
    {
      state == Hash(stream)
    }

    constructor ()
      ensures Valid() && stream == []
    {
      state, stream := OFFSET, [];
    }

    method AbsorbByte(byte: Byte)
      requires Valid()
      modifies this
      ensures Valid() && stream == old(stream) + [byte]
    {
      state := XorByte(state, byte);
      state := TimesPrime(state);
      stream := stream + [byte];
    }

    /** The absorbing loops of `number` and `text`. */
    method AbsorbAll(bytes: seq<Byte>)
      requires Valid()
      modifies this
      ensures Valid() && stream == old(stream) + bytes
    {
      for i := 0 to |bytes|
        invariant Valid()
        invariant stream == old(stream) + bytes[..i]
      {
        AbsorbByte(bytes[i]);
      }
    }

    method Number(value: nat)
      requires Valid()
      modifies this
      ensures Valid() && stream == old(stream) + EncodeNumber(value)
    {
      AbsorbByte(35);
      AbsorbAll(LittleEndian(value, 8));
      Assoc(old(stream), [35], LittleEndian(value, 8), []);
    }

    method Text(value: seq<Byte>)
      requires Valid()
      modifies this
      ensures Valid() && stream == old(stream) + EncodeText(value)
    {
      TextStream(stream, value);
      AbsorbByte(115);
      Number(|value|);
      AbsorbAll(value);
    }

    method Constant(value: bool)
      requires Valid()
      modifies this
      ensures Valid() && stream == old(stream) + Encode(KConst(value))
    {
      AbsorbByte(99);
      Number(if value then 1 else 0);
      Assoc(old(stream), [99], EncodeNumber(if value then 1 else 0), []);
    }

    method Predicate(key: PredicateKey)
      requires Valid()
      modifies this
      ensures Valid() && stream == old(stream) + Encode(KAtom(key))
    {
      AtomStream(stream, key);
      AbsorbByte(112);
      Text(key.namespace);
      Text(key.name);
    }

    /** `finish`. */
    method Finish() returns (r: nat)
      requires Valid()
      ensures r == Hash(stream)
    {
      r := state;
    }
  }

  lemma {:induction false} AllResolve(items: seq<BoolExpr>, registry: PredicateRegistry, ks: seq<KeyedExpr>)
    requires |ks| == |items| && forall j :: 0 <= j < |items| ==> Resolve(items[j], registry) == Success(ks[j])
    ensures ResolveEach(items, registry) == Success(ks)
    decreases items
  {
    if items != [] {
      AllResolve(items[1..], registry, ks[1..]);
      assert ks == [ks[0]] + ks[1..];
    }
  }

  lemma {:induction false} FirstFailure(items: seq<BoolExpr>, registry: PredicateRegistry, i: nat)
    requires i < |items| && forall j :: 0 <= j < i ==> Resolve(items[j], registry).Success?
    requires Resolve(items[i], registry).Failure?
    ensures ResolveEach(items, registry) == Failure(Resolve(items[i], registry).error)
    decreases items
  {
    if i > 0 {
      assert items[1..][i - 1] == items[i];
      FirstFailure(items[1..], registry, i - 1);
    }
  }

  lemma {:induction false} EncodeEachAppend(done: seq<KeyedExpr>, k: KeyedExpr)
    ensures EncodeEach(done + [k]) == EncodeEach(done) + Encode(k)
    decreases done
  {
    if done == [] {
      assert done + [k] == [k] && [k][1..] == [];
    } else {
      EncodeEachAppend(done[1..], k);
      assert (done + [k])[1..] == done[1..] + [k];
    }
  }

  /** The walk absorbed exactly the encoding of the resolved expression, or met an unregistered atom. */
  ghost predicate Absorbed(resolved: Policy<KeyedExpr>, r: Policy<()>, before: seq<Byte>, after: seq<Byte>) {
    match resolved
    case Success(k) => r.Success? && after == before + Encode(k)
    case Failure(error) => r == Failure(error)
  }

  /** `fingerprint_expr`: absorbs exactly the encoding of the resolved expression. */
  method FingerprintExpr(e: BoolExpr, registry: PredicateRegistry, hasher: StableHasher) returns (r: Policy<()>)
    requires hasher.Valid()
    modifies hasher
    ensures hasher.Valid() && Absorbed(Resolve(e, registry), r, old(hasher.stream), hasher.stream)
    decreases e, 1
  {
    match e
    case Const(value) =>
      hasher.Constant(value);
      r := Success(());
    case Atom(id) =>
      var key := registry.Key(id);
      if key.None? {
        return Failure(UnregisteredPredicate(id));
      }
      hasher.Predicate(key.value);
      r := Success(());
    case Not(inner) =>
      ghost var start := hasher.stream;
      hasher.AbsorbByte(110);
      r := FingerprintExpr(inner, registry, hasher);
      if r.Success? {
        NotStream(start, Resolve(inner, registry).value);
      }
    case All(_) | Any(_) => r := FingerprintGroup(e, registry, hasher);
    case Xor(_, _) | Implies(_, _) => r := FingerprintPair(e, registry, hasher);
  }

  method FingerprintGroup(e: BoolExpr, registry: PredicateRegistry, hasher: StableHasher) returns (r: Policy<()>)
    requires hasher.Valid() && (e.All? || e.Any?)
    modifies hasher
    ensures hasher.Valid() && Absorbed(Resolve(e, registry), r, old(hasher.stream), hasher.stream)
    decreases e, 0
  {
    ghost var start := hasher.stream;
    hasher.AbsorbByte(if e.All? then 97 else 111);
    hasher.Number(|e.items|);
    r := FingerprintItems(e.items, registry, hasher);
    if r.Success? {
      GroupStream(start, Resolve(e, registry).value);
    }
  }

  /** A binary node resolves, and encodes, operand by operand. */
  lemma {:induction false} PairResolves(e: BoolExpr, registry: PredicateRegistry, start: seq<Byte>)
    requires e.Xor? || e.Implies?
    ensures var l, r, tag := Resolve(e.lhs, registry), Resolve(e.rhs, registry), if e.Xor? then 120 else 105;
            if l.Failure? then Resolve(e, registry) == Failure(l.error)
            else if r.Failure? then Resolve(e, registry) == Failure(r.error)
            else Resolve(e, registry).Success?
                 && start + [tag] + Encode(l.value) + Encode(r.value) == start + Encode(Resolve(e, registry).value)
  {
    var l, r := Resolve(e.lhs, registry), Resolve(e.rhs, registry);
    if l.Success? && r.Success? {
      Assoc(start, [if e.Xor? then 120 else 105], Encode(l.value), Encode(r.value));
    }
  }

  method FingerprintPair(e: BoolExpr, registry: PredicateRegistry, hasher: StableHasher) returns (r: Policy<()>)
    requires hasher.Valid() && (e.Xor? || e.Implies?)
    modifies hasher
    ensures hasher.Valid() && Absorbed(Resolve(e, registry), r, old(hasher.stream), hasher.stream)
    decreases e, 0
  {
    PairResolves(e, registry, hasher.stream);
    hasher.AbsorbByte(if e.Xor? then 120 else 105);
    r := FingerprintExpr(e.lhs, registry, hasher);
    if r.Success? {
      r := FingerprintExpr(e.rhs, registry, hasher);
    }
  }

  /** The loop over the operands of a group. */
  method FingerprintItems(items: seq<BoolExpr>, registry: PredicateRegistry, hasher: StableHasher)
    returns (r: Policy<()>)
    requires hasher.Valid()
    modifies hasher
    ensures hasher.Valid()
    ensures match ResolveEach(items, registry)
            case Success(ks) => |ks| == |items| && r.Success? && hasher.stream == old(hasher.stream) + EncodeEach(ks)
            case Failure(error) => r == Failure(error)
    decreases items
  {
    ghost var start := hasher.stream;
    ghost var done: seq<KeyedExpr> := [];
    for i := 0 to |items|
      invariant hasher.Valid() && hasher.stream == start + EncodeEach(done)
      invariant |done| == i && forall j :: 0 <= j < i ==> Resolve(items[j], registry) == Success(done[j])
    {
      r := FingerprintExpr(items[i], registry, hasher);
      if r.Failure? {
        FirstFailure(items, registry, i);
        return;
      }
      ghost var k := Resolve(items[i], registry).value;
      EncodeEachAppend(done, k);
      Assoc(start, EncodeEach(done), Encode(k), []);
      done := done + [k];
    }
    AllResolve(items, registry, done);
    r := Success(());
  }

  /** The bytes a fingerprint hashes: version tag, schema number, encoding. */
  function Stream(k: KeyedExpr): seq<Byte> {
    [118] + EncodeNumber(BOOLEAN_EXPRESSION_SCHEMA_V1) + Encode(k)
  }

  /** Canonical form, resolved, hashed. */
  function FingerprintResult(e: BoolExpr, registry: PredicateRegistry): Policy<nat> {
    var c :- CanonicalizeResult(e);
    var k :- Resolve(c, registry);
    Success(Hash(Stream(k)))
  }

  /** `BoolExpr::canonical_fingerprint`. */
  method CanonicalFingerprint(e: BoolExpr, registry: PredicateRegistry) returns (r: Policy<nat>)
    ensures r == FingerprintResult(e, registry)
  {
    var canonical := Canonicalize(e);
    if canonical.Failure? {
      return Failure(canonical.error);
    }
    var hasher := new StableHasher();
    hasher.AbsorbByte(118);
    hasher.Number(BOOLEAN_EXPRESSION_SCHEMA_V1);
    var absorbed := FingerprintExpr(canonical.value, registry, hasher);
    if absorbed.Failure? {
      return Failure(absorbed.error);
    }
    assert hasher.stream == Stream(Resolve(canonical.value, registry).value);
    var bits := hasher.Finish();
    r := Success(bits);
  }

  /** Different resolved expressions always feed the hasher different streams. */
  lemma {:induction false} StreamsDiffer(a: KeyedExpr, b: KeyedExpr)
    requires Fits(a) && Fits(b)
    ensures Stream(a) == Stream(b) <==> a == b
  {
    if Stream(a) == Stream(b) {
      var n := |[118] + EncodeNumber(BOOLEAN_EXPRESSION_SCHEMA_V1)|;
      assert Encode(a) == Stream(a)[n..] && Encode(b) == Stream(b)[n..];
      assert Encode(a) + [] == Encode(b) + [];
      PrefixFree(a, b, [], []);
    }
  }
}

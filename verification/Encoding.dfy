/** The byte stream a fingerprint is computed from (`fingerprint_expr`), and its decoder. */
module Encoding {
  import opened Outcomes
  import opened Expressions
  import opened Predicates

  /** An expression over stable keys instead of compact ids. */
  datatype KeyedExpr =
    | KConst(value: bool)
    | KAtom(key: PredicateKey)
    | KNot(inner: KeyedExpr)
    | KAll(items: seq<KeyedExpr>)
    | KAny(items: seq<KeyedExpr>)
    | KXor(lhs: KeyedExpr, rhs: KeyedExpr)
    | KImplies(lhs: KeyedExpr, rhs: KeyedExpr)

  /** Atoms looked up in a registry, or the first unregistered id in visiting order. */
  function Resolve(e: BoolExpr, registry: PredicateRegistry): Policy<KeyedExpr>
    decreases e
  {
    match e
    case Const(value) => Success(KConst(value))
    case Atom(id) =>
      if registry.Key(id).None? then Failure(UnregisteredPredicate(id)) else Success(KAtom(registry.Key(id).value))
    case Not(inner) =>
      var k :- Resolve(inner, registry);
      Success(KNot(k))
    case All(_) | Any(_) =>
      var ks :- ResolveEach(e.items, registry);
      Success(if e.All? then KAll(ks) else KAny(ks))
    case Xor(_, _) | Implies(_, _) =>
      var l :- Resolve(e.lhs, registry);
      var r :- Resolve(e.rhs, registry);
      Success(if e.Xor? then KXor(l, r) else KImplies(l, r))
  }

  function ResolveEach(items: seq<BoolExpr>, registry: PredicateRegistry): Policy<seq<KeyedExpr>>
    decreases items
  {
    if items == [] then Success([])
    else
      var k :- Resolve(items[0], registry);
      var ks :- ResolveEach(items[1..], registry);
      Success([k] + ks)
  }

  /** Resolution succeeds exactly when every atom is registered, and otherwise names one that is not. */
  lemma {:induction false} ResolveSucceeds(e: BoolExpr, registry: PredicateRegistry)
    ensures match Resolve(e, registry)
            case Success(_) => forall a <- Atoms(e) :: a < |registry.keys|
            case Failure(error) => error.UnregisteredPredicate? && error.id in Atoms(e) && error.id >= |registry.keys|
    decreases e
  {
    match e
    case Const(_) =>
    case Atom(_) =>
    case Not(inner) => ResolveSucceeds(inner, registry);
    case All(_) | Any(_) => ResolveEachSucceeds(e.items, registry);
    case Xor(_, _) | Implies(_, _) =>
      ResolveSucceeds(e.lhs, registry);
      ResolveSucceeds(e.rhs, registry);
  }

  lemma {:induction false} ResolveEachSucceeds(items: seq<BoolExpr>, registry: PredicateRegistry)
    ensures match ResolveEach(items, registry)
            case Success(_) => forall a <- AtomsOf(items) :: a < |registry.keys|
            case Failure(error) =>
              error.UnregisteredPredicate? && error.id in AtomsOf(items) && error.id >= |registry.keys|
    decreases items
  {
    if items != [] {
      ResolveSucceeds(items[0], registry);
      ResolveEachSucceeds(items[1..], registry);
    }
  }

  // ----- the encoding -----

  /** `to_le_bytes` of the low `width` bytes. */
  function LittleEndian(n: nat, width: nat): (r: seq<Byte>)
    ensures |r| == width
  {
    if width == 0 then [] else [n % 256] + LittleEndian(n / 256, width - 1)
  }

  function EncodeNumber(n: nat): seq<Byte> {
    [35] + LittleEndian(n, 8)
  }

  function EncodeText(text: seq<Byte>): seq<Byte> {
    [115] + EncodeNumber(|text|) + text
  }

  /** The tag byte that opens a node: `c p n a o x i`. */
  function Tag(k: KeyedExpr): Byte {
    match k
    case KConst(_) => 99
    case KAtom(_) => 112
    case KNot(_) => 110
    case KAll(_) => 97
    case KAny(_) => 111
    case KXor(_, _) => 120
    case KImplies(_, _) => 105
  }

  function Encode(k: KeyedExpr): seq<Byte>
    decreases k, 1
  {
    [Tag(k)] + Body(k)
  }

  function Body(k: KeyedExpr): seq<Byte>
    decreases k, 0
  {
    match k
    case KConst(value) => EncodeNumber(if value then 1 else 0)
    case KAtom(key) => EncodeText(key.namespace) + EncodeText(key.name)
    case KNot(inner) => Encode(inner)
    case KAll(_) | KAny(_) => EncodeNumber(|k.items|) + EncodeEach(k.items)
    case KXor(_, _) | KImplies(_, _) => Encode(k.lhs) + Encode(k.rhs)
  }

  function EncodeEach(items: seq<KeyedExpr>): seq<Byte>
    decreases items
  {
    if items == [] then [] else Encode(items[0]) + EncodeEach(items[1..])
  }

  // ----- the decoder -----

  function ReadLittleEndian(bytes: seq<Byte>): nat {
    if bytes == [] then 0 else bytes[0] + 256 * ReadLittleEndian(bytes[1..])
  }

  function DecodeNumber(s: seq<Byte>): (r: Option<(nat, seq<Byte>)>)
    ensures r.Some? ==> |r.value.1| < |s|
  {
    if |s| >= 9 && s[0] == 35 then Some((ReadLittleEndian(s[1..9]), s[9..])) else None
  }

  function DecodeText(s: seq<Byte>): (r: Option<(seq<Byte>, seq<Byte>)>)
    ensures r.Some? ==> |r.value.1| < |s|
  {
    if s == [] || s[0] != 115 then None
    else match DecodeNumber(s[1..])
      case None => None
      case Some((n, rest)) => if n <= |rest| then Some((rest[..n], rest[n..])) else None
  }

  function Decode(s: seq<Byte>): (r: Option<(KeyedExpr, seq<Byte>)>)
    ensures r.Some? ==> |r.value.1| < |s|
    decreases |s|, 0
  {
    if s == [] then None
    else if s[0] == 99 then
      match DecodeNumber(s[1..])
      case None => None
      case Some((n, rest)) => if n <= 1 then Some((KConst(n == 1), rest)) else None
    else if s[0] == 112 then
      match DecodeText(s[1..])
      case None => None
      case Some((namespace, rest)) =>
        match DecodeText(rest)
        case None => None
        case Some((name, rest)) => Some((KAtom(PredicateKey(namespace, name)), rest))
    else if s[0] == 110 then
      match Decode(s[1..])
      case None => None
      case Some((inner, rest)) => Some((KNot(inner), rest))
    else if s[0] == 97 || s[0] == 111 then DecodeGroup(s[0] == 97, s[1..])
    else if s[0] == 120 || s[0] == 105 then DecodePair(s[0] == 120, s[1..])
    else None
  }

  function DecodeGroup(conjunction: bool, s: seq<Byte>): (r: Option<(KeyedExpr, seq<Byte>)>)
    ensures r.Some? ==> |r.value.1| < |s|
    decreases |s|, 2
  {
    match DecodeNumber(s)
    case None => None
    case Some((n, rest)) =>
      match DecodeEach(n, rest)
      case None => None
      case Some((items, rest)) => Some((if conjunction then KAll(items) else KAny(items), rest))
  }

  function DecodePair(exclusive: bool, s: seq<Byte>): (r: Option<(KeyedExpr, seq<Byte>)>)
    ensures r.Some? ==> |r.value.1| < |s|
    decreases |s|, 2
  {
    match Decode(s)
    case None => None
    case Some((lhs, rest)) =>
      match Decode(rest)
      case None => None
      case Some((rhs, rest)) => Some((if exclusive then KXor(lhs, rhs) else KImplies(lhs, rhs), rest))
  }

  function DecodeEach(n: nat, s: seq<Byte>): (r: Option<(seq<KeyedExpr>, seq<Byte>)>)
    ensures r.Some? ==> |r.value.1| <= |s|
    decreases |s|, 1
  {
    if n == 0 then Some(([], s))
    else match Decode(s)
      case None => None
      case Some((first, rest)) =>
        match DecodeEach(n - 1, rest)
        case None => None
        case Some((others, rest)) => Some(([first] + others, rest))
  }

  // ----- the round trip -----

  const TWO_TO_64: nat := 0x1_0000_0000_0000_0000

  /** Every length fits the 64-bit field that carries it. */
  ghost predicate Fits(k: KeyedExpr)
    decreases k
  {
    match k
    case KConst(_) => true
    case KAtom(key) => |key.namespace| < TWO_TO_64 && |key.name| < TWO_TO_64
    case KNot(inner) => Fits(inner)
    case KAll(_) | KAny(_) => |k.items| < TWO_TO_64 && forall x <- k.items :: Fits(x)
    case KXor(_, _) | KImplies(_, _) => Fits(k.lhs) && Fits(k.rhs)
  }

  function Power256(width: nat): nat {
    if width == 0 then 1 else 256 * Power256(width - 1)
  }

  lemma {:induction false} LittleEndianRoundTrip(n: nat, width: nat)
    requires n < Power256(width)
    ensures ReadLittleEndian(LittleEndian(n, width)) == n
  {
    if width > 0 {
      LittleEndianRoundTrip(n / 256, width - 1);
      assert LittleEndian(n, width)[1..] == LittleEndian(n / 256, width - 1);
    }
  }

  lemma {:induction false} NumberRoundTrip(n: nat, rest: seq<Byte>)
    requires n < TWO_TO_64
    ensures DecodeNumber(EncodeNumber(n) + rest) == Some((n, rest))
  {
    assert Power256(8) == TWO_TO_64;
    LittleEndianRoundTrip(n, 8);
    var s := EncodeNumber(n) + rest;
    assert s[1..9] == LittleEndian(n, 8) && s[9..] == rest;
  }

  lemma {:induction false} TextRoundTrip(text: seq<Byte>, rest: seq<Byte>)
    requires |text| < TWO_TO_64
    ensures DecodeText(EncodeText(text) + rest) == Some((text, rest))
  {
    var s := EncodeText(text) + rest;
    assert s[1..] == EncodeNumber(|text|) + (text + rest);
    NumberRoundTrip(|text|, text + rest);
    assert (text + rest)[..|text|] == text && (text + rest)[|text|..] == rest;
  }

  /** Decoding an encoding followed by anything returns the expression and exactly what followed. */
  lemma {:induction false} RoundTrip(k: KeyedExpr, rest: seq<Byte>)
    requires Fits(k)
    ensures Decode(Encode(k) + rest) == Some((k, rest))
    decreases k
  {
    match k
    case KConst(_) => ConstRoundTrip(k, rest);
    case KAtom(_) => AtomRoundTrip(k, rest);
    case KNot(inner) =>
      RoundTrip(inner, rest);
      OpenNode(k, rest);
    case KAll(_) | KAny(_) =>
      RoundTripEach(k.items, rest);
      OpenGroup(k, rest);
      DecodeGroupStep(k, Encode(k) + rest, EncodeEach(k.items) + rest, rest);
    case KXor(_, _) | KImplies(_, _) =>
      RoundTrip(k.lhs, Encode(k.rhs) + rest);
      RoundTrip(k.rhs, rest);
      OpenPair(k, rest);
      DecodePairStep(k, Encode(k) + rest, Encode(k.rhs) + rest, rest);
  }

  lemma {:induction false} OpenNode(k: KeyedExpr, rest: seq<Byte>)
    ensures (Encode(k) + rest)[0] == Tag(k) && (Encode(k) + rest)[1..] == Body(k) + rest
  {
  }

  lemma {:induction false} ConstRoundTrip(k: KeyedExpr, rest: seq<Byte>)
    requires k.KConst?
    ensures Decode(Encode(k) + rest) == Some((k, rest))
  {
    var n: nat := if k.value then 1 else 0;
    OpenNode(k, rest);
    NumberRoundTrip(n, rest);
  }

  lemma {:induction false} AtomRoundTrip(k: KeyedExpr, rest: seq<Byte>)
    requires k.KAtom? && Fits(k)
    ensures Decode(Encode(k) + rest) == Some((k, rest))
  {
    OpenNode(k, rest);
    assert Body(k) + rest == EncodeText(k.key.namespace) + (EncodeText(k.key.name) + rest);
    TextRoundTrip(k.key.namespace, EncodeText(k.key.name) + rest);
    TextRoundTrip(k.key.name, rest);
  }

  lemma {:induction false} OpenGroup(k: KeyedExpr, rest: seq<Byte>)
    requires (k.KAll? || k.KAny?) && |k.items| < TWO_TO_64
    ensures var s := Encode(k) + rest;
            s[0] == Tag(k) && DecodeNumber(s[1..]) == Some((|k.items|, EncodeEach(k.items) + rest))
  {
    OpenNode(k, rest);
    Assoc(EncodeNumber(|k.items|), EncodeEach(k.items), rest, []);
    NumberRoundTrip(|k.items|, EncodeEach(k.items) + rest);
  }

  lemma {:induction false} OpenPair(k: KeyedExpr, rest: seq<Byte>)
    requires k.KXor? || k.KImplies?
    ensures var s := Encode(k) + rest; s[0] == Tag(k) && s[1..] == Encode(k.lhs) + (Encode(k.rhs) + rest)
  {
    OpenNode(k, rest);
    Assoc(Encode(k.lhs), Encode(k.rhs), rest, []);
  }

  lemma {:induction false} DecodeGroupStep(k: KeyedExpr, s: seq<Byte>, middle: seq<Byte>, rest: seq<Byte>)
    requires (k.KAll? || k.KAny?) && s != [] && s[0] == Tag(k)
    requires DecodeNumber(s[1..]) == Some((|k.items|, middle)) && DecodeEach(|k.items|, middle) == Some((k.items, rest))
    ensures Decode(s) == Some((k, rest))
  {
    assert Decode(s) == DecodeGroup(k.KAll?, s[1..]);
  }

  lemma {:induction false} DecodePairStep(k: KeyedExpr, s: seq<Byte>, middle: seq<Byte>, rest: seq<Byte>)
    requires (k.KXor? || k.KImplies?) && s != [] && s[0] == Tag(k)
    requires Decode(s[1..]) == Some((k.lhs, middle)) && Decode(middle) == Some((k.rhs, rest))
    ensures Decode(s) == Some((k, rest))
  {
    PairDecoded(k, s[1..], middle, rest);
    PairDispatched(s);
  }

  lemma {:induction false} PairDispatched(s: seq<Byte>)
    requires s != [] && (s[0] == 120 || s[0] == 105)
    ensures Decode(s) == DecodePair(s[0] == 120, s[1..])
  {
  }

  lemma {:induction false} PairDecoded(k: KeyedExpr, s: seq<Byte>, middle: seq<Byte>, rest: seq<Byte>)
    requires k.KXor? || k.KImplies?
    requires Decode(s) == Some((k.lhs, middle)) && Decode(middle) == Some((k.rhs, rest))
    ensures DecodePair(k.KXor?, s) == Some((k, rest))
  {
  }

  lemma {:induction false} RoundTripEach(items: seq<KeyedExpr>, rest: seq<Byte>)
    requires forall x <- items :: Fits(x)
    ensures DecodeEach(|items|, EncodeEach(items) + rest) == Some((items, rest))
    decreases items
  {
    if items != [] {
      assert EncodeEach(items) + rest == Encode(items[0]) + (EncodeEach(items[1..]) + rest);
      RoundTrip(items[0], EncodeEach(items[1..]) + rest);
      RoundTripEach(items[1..], rest);
      assert items == [items[0]] + items[1..];
    } else {
      assert EncodeEach(items) + rest == rest;
    }
  }

  /** No encoding is a prefix of another, and different expressions have different encodings. */
  lemma {:induction false} PrefixFree(a: KeyedExpr, b: KeyedExpr, s: seq<Byte>, t: seq<Byte>)
    requires Fits(a) && Fits(b)
    requires Encode(a) + s == Encode(b) + t
    ensures a == b && s == t
  {
    RoundTrip(a, s);
    RoundTrip(b, t);
  }

  // ----- what bounded expressions resolve to -----

  /** Within the node bound and over valid keys every length fits. */
  lemma {:induction false} BoundedFits(e: BoolExpr, registry: PredicateRegistry)
    requires Resolve(e, registry).Success? && Nodes(e) < TWO_TO_64
    requires forall key <- registry.keys :: ValidKey(key)
    ensures Fits(Resolve(e, registry).value)
    decreases e
  {
    match e
    case Const(_) =>
    case Atom(id) => assert registry.keys[id] in registry.keys;
    case Not(inner) => BoundedFits(inner, registry);
    case All(_) | Any(_) => BoundedFitsEach(e.items, registry);
    case Xor(_, _) | Implies(_, _) =>
      BoundedFits(e.lhs, registry);
      BoundedFits(e.rhs, registry);
  }

  lemma {:induction false} BoundedFitsEach(items: seq<BoolExpr>, registry: PredicateRegistry)
    requires ResolveEach(items, registry).Success? && NodesOf(items) < TWO_TO_64
    requires forall key <- registry.keys :: ValidKey(key)
    ensures var ks := ResolveEach(items, registry).value; |ks| <= NodesOf(items) && forall k <- ks :: Fits(k)
    decreases items
  {
    if items != [] {
      BoundedFits(items[0], registry);
      BoundedFitsEach(items[1..], registry);
      assert Nodes(items[0]) >= 1;
    }
  }
}

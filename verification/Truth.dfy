/** Three-valued truth, finite fact assignments and the information order. */
module Truth {

  /** Strong-Kleene truth values (`TruthValue`). */
  datatype TruthValue = True | False | Unknown {

    function Negated(): TruthValue {
      match this
      case True => False
      case False => True
      case Unknown => Unknown
    }

    function And(rhs: TruthValue): TruthValue {
      if False? || rhs.False? then False
      else if True? && rhs.True? then True
      else Unknown
    }

    function Or(rhs: TruthValue): TruthValue {
      if True? || rhs.True? then True
      else if False? && rhs.False? then False
      else Unknown
    }

    function Xor(rhs: TruthValue): TruthValue {
      if Unknown? || rhs.Unknown? then Unknown
      else if this != rhs then True
      else False
    }

    function Implies(rhs: TruthValue): TruthValue {
      Negated().Or(rhs)
    }
  }

  /** The truth value of a Boolean constant. */
  function Known(b: bool): TruthValue {
    if b then True else False
  }

  /** `and` for a conjunction, `or` for a disjunction. */
  function Combine(conjunction: bool, a: TruthValue, b: TruthValue): TruthValue {
    if conjunction then a.And(b) else a.Or(b)
  }

  /** `xor` or `implies`. */
  function Binary(exclusive: bool, a: TruthValue, b: TruthValue): TruthValue {
    if exclusive then a.Xor(b) else a.Implies(b)
  }

  /**
   What a fact store knows. An id outside the map is Unknown, so equal maps and
   equal three-valued assignments are the same thing.
   */
  type Facts = map<nat, bool>

  function Lookup(facts: Facts, id: nat): TruthValue {
    if id in facts then Known(facts[id]) else Unknown
  }

  /** `facts` after one `set(id, value)`. */
  function Assign(facts: Facts, id: nat, value: TruthValue): Facts {
    match value
    case True => facts[id := true]
    case False => facts[id := false]
    case Unknown => facts - {id}
  }

  /** One call of `set`. */
  type Write = (nat, TruthValue)

  /** The facts a run of `set` calls leaves in an empty store that rejects ids from `capacity` on. */
  function Replay(writes: seq<Write>, capacity: nat): Facts {
    if writes == [] then map[]
    else
      var before, last := Replay(writes[..|writes| - 1], capacity), writes[|writes| - 1];
      if last.0 < capacity then Assign(before, last.0, last.1) else before
  }

  /** A store is a map defaulting to Unknown: the last accepted write to an id is what is read back. */
  lemma {:induction false} LastWriteWins(writes: seq<Write>, capacity: nat, k: nat)
    requires k < |writes| && writes[k].0 < capacity
    requires forall j :: k < j < |writes| ==> writes[j].0 != writes[k].0
    ensures Lookup(Replay(writes, capacity), writes[k].0) == writes[k].1
  {
    var front := writes[..|writes| - 1];
    if k < |writes| - 1 {
      assert front[k] == writes[k];
      LastWriteWins(front, capacity, k);
    }
  }

  /** An id never written, or out of range, reads Unknown. */
  lemma {:induction false} NeverWritten(writes: seq<Write>, capacity: nat, id: nat)
    requires id < capacity ==> forall j :: 0 <= j < |writes| ==> writes[j].0 != id
    ensures id !in Replay(writes, capacity)
  {
    if writes != [] {
      NeverWritten(writes[..|writes| - 1], capacity, id);
    }
  }

  /** The replay of a run that is one write longer. */
  lemma {:induction false} ReplayStep(writes: seq<Write>, capacity: nat, i: nat)
    requires i < |writes|
    ensures Replay(writes[..i + 1], capacity)
         == if writes[i].0 < capacity then Assign(Replay(writes[..i], capacity), writes[i].0, writes[i].1)
            else Replay(writes[..i], capacity)
  {
    assert writes[..i + 1][..i] == writes[..i];
  }

  /** Position in the truth order False, Unknown, True. */
  function Level(t: TruthValue): nat {
    match t
    case False => 0
    case Unknown => 1
    case True => 2
  }

  /** The truth tables: `and` is the lower level, `or` the higher, negation turns the levels over. */
  lemma {:induction false} Tables(a: TruthValue, b: TruthValue)
    ensures Level(False) == 0 && Level(Unknown) == 1 && Level(True) == 2
    ensures Level(a.Negated()) == 2 - Level(a)
    ensures Level(a.And(b)) == if Level(a) < Level(b) then Level(a) else Level(b)
    ensures Level(a.Or(b)) == if Level(a) < Level(b) then Level(b) else Level(a)
    ensures Level(a.Implies(b)) == if 2 - Level(a) < Level(b) then Level(b) else 2 - Level(a)
    ensures a.Xor(b) == Unknown <==> a == Unknown || b == Unknown
    ensures a.Xor(b) == True <==> a != Unknown && b != Unknown && a != b
  {
  }

  /** `b` says at least as much as `a`. */
  predicate Refines(a: TruthValue, b: TruthValue) {
    a == Unknown || a == b
  }

  /** `g` keeps every fact of `f` and may add more. */
  predicate Extends(f: Facts, g: Facts) {
    forall id <- f :: id in g && g[id] == f[id]
  }
}

/** The order canonical operands have, constructor by constructor (`canonical.rs`). */
module OperandOrder {
  import opened Expressions
  import opened Order
  import opened Canonical

  /**
   Of two nodes of different kinds the one named earlier comes first: constant, atom,
   negation, all, any, xor, implies.
   */
  predicate KindBefore(a: BoolExpr, b: BoolExpr) {
    match b
    case Const(_) => false
    case Atom(_) => a.Const?
    case Not(_) => a.Const? || a.Atom?
    case All(_) => a.Const? || a.Atom? || a.Not?
    case Any(_) => a.Const? || a.Atom? || a.Not? || a.All?
    case Xor(_, _) => a.Const? || a.Atom? || a.Not? || a.All? || a.Any?
    case Implies(_, _) => !a.Implies?
  }

  /** The order, declared: by kind, then by id, or by the first part that differs. */
  ghost predicate Earlier(a: BoolExpr, b: BoolExpr)
    decreases a
  {
    || KindBefore(a, b)
    || (a.Const? && b.Const? && !a.value && b.value)
    || (a.Atom? && b.Atom? && a.id < b.id)
    || (a.Not? && b.Not? && Earlier(a.inner, b.inner))
    || (a.All? && b.All? && EarlierList(a.items, b.items))
    || (a.Any? && b.Any? && EarlierList(a.items, b.items))
    || (a.Xor? && b.Xor? && (Earlier(a.lhs, b.lhs) || (a.lhs == b.lhs && Earlier(a.rhs, b.rhs))))
    || (a.Implies? && b.Implies? && (Earlier(a.lhs, b.lhs) || (a.lhs == b.lhs && Earlier(a.rhs, b.rhs))))
  }

  /** At the first difference the earlier element decides; a proper prefix comes first. */
  ghost predicate EarlierList(xs: seq<BoolExpr>, ys: seq<BoolExpr>)
    decreases xs
  {
    exists k: nat :: SharePrefix(xs, ys, k) && (k == |xs| || Earlier(xs[k], ys[k]))
  }

  /** The first `k` elements are the same, and the second list goes on. */
  ghost predicate SharePrefix(xs: seq<BoolExpr>, ys: seq<BoolExpr>, k: nat) {
    k <= |xs| && k < |ys| && xs[..k] == ys[..k]
  }

  /** The comparison computes exactly that order. */
  lemma {:induction false} CompareIsEarlier(a: BoolExpr, b: BoolExpr)
    ensures Compare(a, b) == Less <==> Earlier(a, b)
    decreases a
  {
    if Rank(a) == Rank(b) {
      match a
      case Const(_) =>
      case Atom(_) =>
      case Not(inner) => CompareIsEarlier(inner, b.inner);
      case All(_) | Any(_) => CompareListIsEarlier(a.items, b.items);
      case Xor(_, _) | Implies(_, _) =>
        CompareIsEarlier(a.lhs, b.lhs);
        CompareIsEarlier(a.rhs, b.rhs);
        CompareEqual(a.lhs, b.lhs);
    }
  }

  lemma {:induction false} CompareListIsEarlier(xs: seq<BoolExpr>, ys: seq<BoolExpr>)
    ensures CompareList(xs, ys) == Less <==> EarlierList(xs, ys)
    decreases xs
  {
    if ys == [] {
    } else if xs == [] {
      assert SharePrefix(xs, ys, 0);
    } else {
      CompareIsEarlier(xs[0], ys[0]);
      CompareEqual(xs[0], ys[0]);
      CompareListIsEarlier(xs[1..], ys[1..]);
      FirstDifference(xs, ys);
    }
  }

  lemma {:induction false} NextElement(xs: seq<BoolExpr>, ys: seq<BoolExpr>, k: nat)
    requires xs != [] && ys != []
    ensures SharePrefix(xs, ys, k + 1) <==> xs[0] == ys[0] && SharePrefix(xs[1..], ys[1..], k)
  {
    if k + 1 <= |xs| && k + 1 < |ys| {
      assert xs[..k + 1] == [xs[0]] + xs[1..][..k] && ys[..k + 1] == [ys[0]] + ys[1..][..k];
    }
  }

  /** Whether the first elements decide, or the rest does. */
  lemma {:induction false} FirstDifference(xs: seq<BoolExpr>, ys: seq<BoolExpr>)
    requires xs != [] && ys != []
    ensures EarlierList(xs, ys) <==> Earlier(xs[0], ys[0]) || (xs[0] == ys[0] && EarlierList(xs[1..], ys[1..]))
  {
    if EarlierList(xs, ys) {
      var k: nat :| SharePrefix(xs, ys, k) && (k == |xs| || Earlier(xs[k], ys[k]));
      if k > 0 {
        NextElement(xs, ys, k - 1);
      }
    }
    if Earlier(xs[0], ys[0]) {
      assert SharePrefix(xs, ys, 0);
    } else if xs[0] == ys[0] && EarlierList(xs[1..], ys[1..]) {
      var p, q := xs[1..], ys[1..];
      var k: nat :| SharePrefix(p, q, k) && (k == |p| || Earlier(p[k], q[k]));
      NextElement(xs, ys, k);
      assert k < |p| ==> xs[k + 1] == p[k] && ys[k + 1] == q[k];
    }
  }

  /** In a canonical group every operand comes before every later one. */
  lemma {:induction false} CanonicalOperandsAscend(e: BoolExpr, i: nat, j: nat)
    requires (e.All? || e.Any?) && IsCanonical(e) && i < j < |e.items|
    ensures Earlier(e.items[i], e.items[j])
  {
    CompareEqual(e.items[i], e.items[j]);
    CompareIsEarlier(e.items[i], e.items[j]);
  }

  /** Atoms come first in ascending id, then negations, conjunctions, disjunctions, exclusive-ors and implications. */
  lemma {:induction false} CanonicalOperandKinds(e: BoolExpr, i: nat, j: nat)
    requires (e.All? || e.Any?) && IsCanonical(e) && i < j < |e.items|
    ensures var a, b := e.items[i], e.items[j];
            && (b.Atom? ==> a.Atom? && a.id < b.id)
            && (b.Not? ==> a.Atom? || a.Not?)
            && (b.All? ==> a.Atom? || a.Not? || a.All?)
            && (b.Any? ==> a.Atom? || a.Not? || a.All? || a.Any?)
            && (b.Xor? ==> !a.Implies?)
  {
    CanonicalOperandsAscend(e, i, j);
    assert e.items[i] in e.items && !e.items[i].Const?;
  }

  /** The operands of a canonical exclusive-or are equal or in that order. */
  lemma {:induction false} CanonicalXorAscends(e: BoolExpr)
    requires e.Xor? && IsCanonical(e)
    ensures e.lhs == e.rhs || Earlier(e.lhs, e.rhs)
  {
    CompareEqual(e.lhs, e.rhs);
    CompareIsEarlier(e.lhs, e.rhs);
  }
}

/** The structural order on expressions that canonicalization sorts by (`compare_expr`). */
module Order {
  import opened Expressions
  import opened Sorting

  datatype Ordering = Less | Equal | Greater {

    function Then(next: Ordering): Ordering {
      if this == Equal then next else this
    }

    function Reverse(): Ordering {
      match this
      case Less => Greater
      case Equal => Equal
      case Greater => Less
    }
  }

  function CompareNat(a: nat, b: nat): Ordering {
    if a < b then Less else if a == b then Equal else Greater
  }

  function CompareBool(a: bool, b: bool): Ordering {
    if a == b then Equal else if b then Less else Greater
  }

  function Rank(e: BoolExpr): nat {
    match e
    case Const(_) => 0
    case Atom(_) => 1
    case Not(_) => 2
    case All(_) => 3
    case Any(_) => 4
    case Xor(_, _) => 5
    case Implies(_, _) => 6
  }

  /** `compare_expr`. */
  function Compare(lhs: BoolExpr, rhs: BoolExpr): Ordering
    decreases lhs
  {
    if Rank(lhs) != Rank(rhs) then CompareNat(Rank(lhs), Rank(rhs))
    else match lhs
      case Const(value) => CompareBool(value, rhs.value)
      case Atom(id) => CompareNat(id, rhs.id)
      case Not(inner) => Compare(inner, rhs.inner)
      case All(_) | Any(_) => CompareList(lhs.items, rhs.items)
      case Xor(_, _) | Implies(_, _) => Compare(lhs.lhs, rhs.lhs).Then(Compare(lhs.rhs, rhs.rhs))
  }

  /** `compare_expr_slices`: the first difference, then the length. */
  function CompareList(lhs: seq<BoolExpr>, rhs: seq<BoolExpr>): Ordering
    decreases lhs
  {
    if lhs == [] || rhs == [] then CompareNat(|lhs|, |rhs|)
    else Compare(lhs[0], rhs[0]).Then(CompareList(lhs[1..], rhs[1..]))
  }

  // ----- a total order -----

  /** Equal means structurally equal. */
  lemma {:induction false} CompareEqual(a: BoolExpr, b: BoolExpr)
    ensures Compare(a, b) == Equal <==> a == b
    decreases a
  {
    if Rank(a) == Rank(b) {
      match a
      case Const(_) =>
      case Atom(_) =>
      case Not(inner) => CompareEqual(inner, b.inner);
      case All(_) | Any(_) => CompareListEqual(a.items, b.items);
      case Xor(_, _) | Implies(_, _) => CompareEqual(a.lhs, b.lhs); CompareEqual(a.rhs, b.rhs);
    }
  }

  lemma {:induction false} CompareListEqual(a: seq<BoolExpr>, b: seq<BoolExpr>)
    ensures CompareList(a, b) == Equal <==> a == b
    decreases a
  {
    if a != [] && b != [] {
      CompareEqual(a[0], b[0]);
      CompareListEqual(a[1..], b[1..]);
      assert a == [a[0]] + a[1..] && b == [b[0]] + b[1..];
    }
  }

  /** Exchanging the operands reverses the outcome. */
  lemma {:induction false} CompareReverse(a: BoolExpr, b: BoolExpr)
    ensures Compare(b, a) == Compare(a, b).Reverse()
    decreases a
  {
    if Rank(a) == Rank(b) {
      match a
      case Const(_) =>
      case Atom(_) =>
      case Not(inner) => CompareReverse(inner, b.inner);
      case All(_) | Any(_) => CompareListReverse(a.items, b.items);
      case Xor(_, _) | Implies(_, _) => CompareReverse(a.lhs, b.lhs); CompareReverse(a.rhs, b.rhs);
    }
  }

  lemma {:induction false} CompareListReverse(a: seq<BoolExpr>, b: seq<BoolExpr>)
    ensures CompareList(b, a) == CompareList(a, b).Reverse()
    decreases a
  {
    if a != [] && b != [] {
      CompareReverse(a[0], b[0]);
      CompareListReverse(a[1..], b[1..]);
    }
  }

  lemma {:induction false} CompareTransitive(a: BoolExpr, b: BoolExpr, c: BoolExpr)
    requires Compare(a, b) == Less && Compare(b, c) == Less
    ensures Compare(a, c) == Less
    decreases a
  {
    if Rank(a) == Rank(b) == Rank(c) {
      match a
      case Const(_) =>
      case Atom(_) =>
      case Not(inner) => CompareTransitive(inner, b.inner, c.inner);
      case All(_) | Any(_) => CompareListTransitive(a.items, b.items, c.items);
      case Xor(_, _) | Implies(_, _) =>
        CompareEqual(a.lhs, b.lhs);
        CompareEqual(b.lhs, c.lhs);
        if a.lhs == b.lhs && b.lhs == c.lhs {
          CompareTransitive(a.rhs, b.rhs, c.rhs);
        } else if a.lhs != b.lhs && b.lhs != c.lhs {
          CompareTransitive(a.lhs, b.lhs, c.lhs);
        }
    }
  }

  lemma {:induction false} CompareListTransitive(a: seq<BoolExpr>, b: seq<BoolExpr>, c: seq<BoolExpr>)
    requires CompareList(a, b) == Less && CompareList(b, c) == Less
    ensures CompareList(a, c) == Less
    decreases a
  {
    if a != [] && b != [] && c != [] {
      CompareEqual(a[0], b[0]);
      CompareEqual(b[0], c[0]);
      if a[0] == b[0] && b[0] == c[0] {
        CompareListTransitive(a[1..], b[1..], c[1..]);
      } else if a[0] != b[0] && b[0] != c[0] {
        CompareTransitive(a[0], b[0], c[0]);
      }
    }
  }

  /** The comparison handed to `sort_by`. */
  const ExprLeq: (BoolExpr, BoolExpr) -> bool := (a: BoolExpr, b: BoolExpr) => Compare(a, b) != Greater

  /** `compare_expr` is a total order whose equality is structural equality. */
  lemma {:induction false} CompareIsTotalOrder()
    ensures TotalOrder(ExprLeq)
  {
    forall a, b ensures ExprLeq(a, b) || ExprLeq(b, a) {
      CompareReverse(a, b);
    }
    forall a, b | ExprLeq(a, b) && ExprLeq(b, a) ensures a == b {
      CompareReverse(a, b);
      CompareEqual(a, b);
    }
    forall a, b, c | ExprLeq(a, b) && ExprLeq(b, c) ensures ExprLeq(a, c) {
      CompareEqual(a, b);
      CompareEqual(b, c);
      if a != b && b != c {
        CompareTransitive(a, b, c);
      }
    }
  }
}

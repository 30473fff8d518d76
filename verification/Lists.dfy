/** Lists with one element taken out. */
module Lists {

  function Without<T>(items: seq<T>, index: nat): seq<T>
    requires index < |items|
  {
    items[..index] + items[index + 1..]
  }

  /** Dropping one element of a list that is one element longer. */
  lemma {:induction false} WithoutStep<T>(items: seq<T>, index: nat, i: nat)
    requires i < |items|
    ensures i < index ==> items[..i] + [items[i]] == items[..i + 1]
    ensures i == index ==> items[..i] == Without(items[..i + 1], index)
    ensures i > index ==> Without(items[..i], index) + [items[i]] == Without(items[..i + 1], index)
  {
    var longer, shorter := items[..i + 1], items[..i];
    assert longer == shorter + [items[i]];
    if i > index {
      assert longer[..index] == shorter[..index] && longer[index + 1..] == shorter[index + 1..] + [items[i]];
    }
  }

  lemma {:induction false} MembersWithout<T(!new)>(items: seq<T>, i: nat)
    requires i < |items|
    ensures multiset(Without(items, i)) == multiset(items) - multiset{items[i]}
    ensures forall t :: t in Without(items, i) <==> t in multiset(Without(items, i))
  {
    assert items == items[..i] + [items[i]] + items[i + 1..];
  }
}

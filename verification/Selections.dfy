/** Choosing elements of a list by a condition, in order and without leaving one out. */
module Selections {

  /** How many elements satisfy the condition. */
  function Count<A>(items: seq<A>, keep: A -> bool): nat {
    if items == [] then 0
    else Count(items[..|items| - 1], keep) + if keep(items[|items| - 1]) then 1 else 0
  }

  /**
    The output holds what f makes of the elements that satisfy the condition and nothing else,
    each at the place given by the number of such elements before it.
   */
  predicate Chosen<A, B(==)>(items: seq<A>, keep: A -> bool, f: A -> B, out: seq<B>) {
    && |out| == Count(items, keep)
    && forall i :: 0 <= i < |items| && keep(items[i]) ==>
         Count(items[..i], keep) < |out| && out[Count(items[..i], keep)] == f(items[i])
  }

  /** One element more at the end. */
  lemma ChosenSnoc<A, B>(items: seq<A>, keep: A -> bool, f: A -> B, out: seq<B>, item: A)
    requires Chosen(items, keep, f, out)
    ensures Chosen(items + [item], keep, f, if keep(item) then out + [f(item)] else out)
  {
    var all, out' := items + [item], if keep(item) then out + [f(item)] else out;
    assert all[..|items|] == items;
    forall i | 0 <= i < |all| && keep(all[i])
      ensures Count(all[..i], keep) < |out'| && out'[Count(all[..i], keep)] == f(all[i])
    {
      if i < |items| {
        assert all[..i] == items[..i];
      }
    }
  }
}

/** Sequences of lists. */
module Sequences {

  function Flat<T>(lists: seq<seq<T>>): seq<T> {
    if lists == [] then [] else Flat(lists[..|lists| - 1]) + lists[|lists| - 1]
  }

  lemma FlatSnoc<T>(lists: seq<seq<T>>, more: seq<T>)
    ensures Flat(lists + [more]) == Flat(lists) + more
  {
    assert (lists + [more])[..|lists|] == lists;
  }
}

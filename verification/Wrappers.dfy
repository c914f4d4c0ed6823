/** Notions that every part of the model uses. */
module Wrappers {

  type PlayerId = nat

  /** Optional results (`std::optional`, and pointers that may be null). */
  datatype Option<+T> = None | Some(value: T)

  /** `items` lists the set, each element once: what a loop over an unordered container visits. */
  ghost predicate Listing<T(!new)>(items: seq<T>, all: set<T>) {
    && (forall i :: 0 <= i < |items| ==> items[i] in all)
    && (forall x :: x in all ==> x in items)
    && (forall i, j :: 0 <= i < j < |items| ==> items[i] != items[j])
  }

  ghost function Flatten<T>(parts: seq<seq<T>>): seq<T> {
    if parts == [] then [] else parts[0] + Flatten(parts[1..])
  }

  lemma {:induction false} FlattenSnoc<T>(parts: seq<seq<T>>, x: seq<T>)
    ensures Flatten(parts + [x]) == Flatten(parts) + x
  {
    if parts != [] {
      FlattenSnoc(parts[1..], x);
      assert (parts + [x])[1..] == parts[1..] + [x];
    }
  }

  /** A listing is as long as its set is large. */
  lemma {:induction false} ListingSize<T(!new)>(items: seq<T>, all: set<T>)
    requires Listing(items, all)
    ensures |items| == |all|
    decreases |items|
  {
    if items == [] {
      assert all == {};
    } else {
      var front, last := items[..|items| - 1], items[|items| - 1];
      assert items == front + [last];
      ListingSize(front, all - {last});
    }
  }
}

/**
  Lists that are picked out of other lists in order.
 */
module Order {
  import opened Wrappers

  // What is there of some things that may be missing.
  function Somes<T>(things: seq<Option<T>>): seq<T> {
    if things == [] then []
    else
      var n := |things| - 1;
      if things[n].Some? then Somes(things[..n]) + [things[n].value] else Somes(things[..n])
  }

  // The things that are there, from front to back, are those at some increasing positions.
  ghost predicate Picked<T>(kept: seq<T>, things: seq<Option<T>>, at: seq<nat>) {
    && |at| == |kept|
    && (forall j, k :: 0 <= j < k < |at| ==> at[j] < at[k])
    && (forall k :: 0 <= k < |at| ==> at[k] < |things| && things[at[k]].Some? && things[at[k]].value == kept[k])
    && (forall i :: 0 <= i < |things| && things[i].Some? ==> i in at)
  }

  /** Nothing that is there gets lost, doubled or out of order. */
  lemma {:induction false} SomesKeepOrder<T>(things: seq<Option<T>>) returns (at: seq<nat>)
    ensures Picked(Somes(things), things, at)
  {
    if things == [] {
      at := [];
    } else {
      var n := |things| - 1;
      at := SomesKeepOrder(things[..n]);
      if things[n].Some? {
        OneMore(Somes(things[..n]), things, at);
        at := at + [n];
      }
    }
  }

  lemma OneMore<T>(kept: seq<T>, things: seq<Option<T>>, at: seq<nat>)
    requires things != [] && things[|things| - 1].Some?
    requires Picked(kept, things[..|things| - 1], at)
    ensures Picked(kept + [things[|things| - 1].value], things, at + [|things| - 1])
  {
    var n := |things| - 1;
    forall i | 0 <= i < |things| && things[i].Some? ensures i in at + [n] {
      if i < n {
        assert things[..n][i].Some?;
      } else {
        assert (at + [n])[|at|] == i;
      }
    }
  }
}

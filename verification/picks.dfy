/** Filters that keep order: a single pass over a sequence that keeps an
    image of some of its elements lists those images in the order of the
    elements' positions. */
module Picks {

  /** The identity, as the image of a filter that keeps elements as they
      are. */
  function Id<T>(x: T): T {
    x
  }

  /** `found` holds the images under `h` of the elements of `s` at the
      positions `ix`, in that order. */
  ghost predicate ListsAt<T, R>(s: seq<T>, h: T -> R, found: seq<R>, ix: seq<int>) {
    && |found| == |ix|
    && forall j :: 0 <= j < |ix| ==> 0 <= ix[j] < |s| && found[j] == h(s[ix[j]])
  }

  /** Keeping or skipping the last element extends the listing of the
      elements before it. */
  lemma PickStep<T, R>(s: seq<T>, h: T -> R, rest: seq<R>, ixi: seq<int>, keep: bool)
    requires |s| > 0 && ListsAt(s[..|s| - 1], h, rest, ixi)
    ensures ListsAt(s, h, if keep then rest + [h(s[|s| - 1])] else rest, if keep then ixi + [|s| - 1] else ixi)
  {
    var init := s[..|s| - 1];
    forall j | 0 <= j < |ixi|
      ensures init[ixi[j]] == s[ixi[j]]
    {
    }
  }
}

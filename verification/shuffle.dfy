/** The question shuffle of the app: a copy of the bank sorted with a
    comparator that answers at random. Whatever order the engine's sort
    settles on, it reaches it by exchanging elements of the copy, and a sort
    driven by an inconsistent comparator still returns a permutation of its
    input (section 23.1.3.30 of ECMA-262, 2023 edition). The model therefore
    takes the exchanges the sort performed as a parameter supplied by the
    environment; it says nothing about which orders are likely. */
module Shuffle {

  /** The sort exchanged the elements at positions `i` and `j`. */
  datatype Exchange = Exchange(i: nat, j: nat)

  predicate InRange(exchanges: seq<Exchange>, n: nat) {
    forall k :: 0 <= k < |exchanges| ==> exchanges[k].i < n && exchanges[k].j < n
  }

  /** Exchanges two positions and leaves every other position alone. */
  function Swap<T>(xs: seq<T>, e: Exchange): (r: seq<T>)
    requires e.i < |xs| && e.j < |xs|
    ensures |r| == |xs|
    ensures r[e.i] == xs[e.j] && r[e.j] == xs[e.i]
    ensures forall k :: 0 <= k < |xs| && k != e.i && k != e.j ==> r[k] == xs[k]
    ensures multiset(r) == multiset(xs)
  {
    xs[e.i := xs[e.j]][e.j := xs[e.i]]
  }

  /** `[...array].sort(() => Math.random() - 0.5)`: the input is copied and the
      copy rearranged, so the result has the same elements with the same
      multiplicities and the caller's sequence is untouched. */
  function Shuffled<T>(xs: seq<T>, exchanges: seq<Exchange>): (r: seq<T>)
    requires InRange(exchanges, |xs|)
    ensures |r| == |xs|
    ensures multiset(r) == multiset(xs)
    decreases |exchanges|
  {
    if |exchanges| == 0 then xs
    else Shuffled(Swap(xs, exchanges[0]), exchanges[1..])
  }

  /** An element occurs in the shuffled copy exactly when it occurs in the
      input: nothing is added and nothing is lost. */
  lemma ShuffledKeepsMembers<T>(xs: seq<T>, exchanges: seq<Exchange>, x: T)
    requires InRange(exchanges, |xs|)
    ensures x in Shuffled(xs, exchanges) <==> x in xs
  {
    assert x in multiset(Shuffled(xs, exchanges)) <==> x in multiset(xs);
  }
}

/**
  The shape caches of the sketches (`boxes` in sketch-01.js, `ticks` and
  `arcs` in sketch-02.js): JavaScript arrays indexed by slot, filled lazily
  and never rebuilt. A frame visits slots 0, 1, ..., n - 1 in order and
  leaves every slot at or beyond n as it was; nothing is ever removed. The
  content of a slot is described here by a state value per slot.
*/
module Slots {

  /**
    A frame has visited slots 0 .. n - 1: those hold their `expected`
    states, every other slot `before` had is unchanged, and no other slot
    exists.
  */
  ghost predicate VisitedUpTo<S>(before: map<nat, S>, after: map<nat, S>, expected: seq<S>, n: nat)
    requires n <= |expected|
  {
    && (forall k: nat :: k in after <==> k in before || k < n)
    && (forall k :: k in before && k >= n ==> after[k] == before[k])
    && (forall k :: 0 <= k < n ==> after[k] == expected[k])
  }

  /**
    Visiting the next slot, which fills slot `n` with its expected state
    and changes no other slot, extends the visited prefix by one.
  */
  lemma VisitNext<S>(before: map<nat, S>, mid: map<nat, S>, after: map<nat, S>, expected: seq<S>, n: nat)
    requires n < |expected| && VisitedUpTo(before, mid, expected, n)
    requires after.Keys == mid.Keys + {n} && after[n] == expected[n]
    requires forall k :: k in mid && k != n ==> after[k] == mid[k]
    ensures VisitedUpTo(before, after, expected, n + 1)
  {
  }

  /** The next slot to visit still holds what it held before the frame. */
  lemma NextSlotUntouched<S>(before: map<nat, S>, mid: map<nat, S>, expected: seq<S>, n: nat)
    requires n <= |expected| && VisitedUpTo(before, mid, expected, n)
    ensures n in mid <==> n in before
    ensures n in before ==> mid[n] == before[n]
  {
  }

  /** Appending the next element to a prefix gives the next prefix. */
  lemma AppendNext<T>(done: seq<T>, all: seq<T>, x: T, n: nat)
    requires n < |all| && done == all[..n] && x == all[n]
    ensures done + [x] == all[..n + 1]
  {
  }
}

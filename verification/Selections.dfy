/** Picking items of a sequence by place. */
module Selections {
  /** The places go up and lie in the sequence. */
  ghost predicate ArePlaces(places: seq<int>, n: nat) {
    && (forall i :: 0 <= i < |places| ==> 0 <= places[i] < n)
    && (forall i, j :: 0 <= i < j < |places| ==> places[i] < places[j])
  }

  /** The picked items are those at the given places, in their order. */
  ghost predicate IsSelection<T>(picked: seq<T>, all: seq<T>, places: seq<int>) {
    && ArePlaces(places, |all|) && |places| == |picked|
    && forall i :: 0 <= i < |places| ==> picked[i] == all[places[i]]
  }

  lemma OneMorePlace(places: seq<int>, n: nat)
    requires ArePlaces(places, n)
    ensures ArePlaces(places, n + 1) && ArePlaces(places + [n], n + 1)
  {
  }

  lemma OneMorePicked<T>(picked: seq<T>, all: seq<T>, places: seq<int>, n: nat)
    requires n + 1 == |all| && IsSelection(picked, all[..n], places)
    ensures IsSelection(picked, all, places) && IsSelection(picked + [all[n]], all, places + [n])
  {
    assert forall i :: 0 <= i < |places| ==> all[..n][places[i]] == all[places[i]];
  }

  lemma NothingPicked<T>()
    ensures IsSelection<T>([], [], [])
  {
  }

  lemma PlacesBelow<T>(picked: seq<T>, all: seq<T>, places: seq<int>, n: int)
    requires IsSelection(picked, all, places) && n >= |all|
    ensures n !in places
  {
  }
}

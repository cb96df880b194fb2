/** The Fisher-Yates shuffle that starts the slideshow (`shuffleArray` in
    src/App.jsx).  The source draws each swap partner with `Math.random`;
    here those draws are an input: `picks[i]` is the index the loop pairs
    with position `i`, which the source always draws from `0..i`. */
module Shuffle {

  /** The random draws are admissible for an array of length `n`: one draw
      per position, and the draw for position `i` lies in `0..i`. */
  predicate ValidPicks(picks: seq<nat>, n: nat) {
    |picks| == n && forall i :: 0 <= i < n ==> picks[i] <= i
  }

  /** Exchanging the elements at `i` and `j`, as the destructuring
      assignment `[a[i], a[j]] = [a[j], a[i]]` does. */
  function SwapAt<T>(s: seq<T>, i: nat, j: nat): (r: seq<T>)
    requires i < |s| && j < |s|
    ensures |r| == |s|
    ensures r[i] == s[j] && r[j] == s[i]
    ensures forall k :: 0 <= k < |s| && k != i && k != j ==> r[k] == s[k]
  {
    s[i := s[j]][j := s[i]]
  }

  /** The loop of the shuffle still to run when its counter is `top - 1`:
      swap positions `top - 1, top - 2, ..., 1` with their draws, in that
      order. */
  function ShuffleDown<T>(s: seq<T>, picks: seq<nat>, top: nat): seq<T>
    requires ValidPicks(picks, |s|) && top <= |s|
    decreases top
  {
    if top <= 1 then s
    else ShuffleDown(SwapAt(s, top - 1, picks[top - 1]), picks, top - 1)
  }

  /** The whole shuffle: the loop from the last index down to 1. */
  function Shuffled<T>(s: seq<T>, picks: seq<nat>): seq<T>
    requires ValidPicks(picks, |s|)
  {
    ShuffleDown(s, picks, |s|)
  }

  lemma SwapPermutes<T>(s: seq<T>, i: nat, j: nat)
    requires i < |s| && j < |s|
    ensures multiset(SwapAt(s, i, j)) == multiset(s)
  {
  }

  /** Every step of the loop only exchanges two elements, so whatever is
      still to run leaves the length and the multiset of elements as they
      are. */
  lemma {:induction false} ShuffleDownPermutes<T>(s: seq<T>, picks: seq<nat>, top: nat)
    requires ValidPicks(picks, |s|) && top <= |s|
    ensures |ShuffleDown(s, picks, top)| == |s|
    ensures multiset(ShuffleDown(s, picks, top)) == multiset(s)
    decreases top
  {
    if top > 1 {
      var s' := SwapAt(s, top - 1, picks[top - 1]);
      SwapPermutes(s, top - 1, picks[top - 1]);
      ShuffleDownPermutes(s', picks, top - 1);
    }
  }

  /** The shuffle returns a permutation of its input, whatever the draws. */
  lemma ShuffledIsPermutation<T>(s: seq<T>, picks: seq<nat>)
    requires ValidPicks(picks, |s|)
    ensures |Shuffled(s, picks)| == |s|
    ensures multiset(Shuffled(s, picks)) == multiset(s)
  {
    ShuffleDownPermutes(s, picks, |s|);
  }

  /** Drawing `i` for every position swaps each element with itself. */
  lemma {:induction false} ShuffleDownIdentity<T>(s: seq<T>, picks: seq<nat>, top: nat)
    requires ValidPicks(picks, |s|) && top <= |s|
    requires forall i :: 0 <= i < |s| ==> picks[i] == i
    ensures ShuffleDown(s, picks, top) == s
    decreases top
  {
    if top > 1 {
      assert SwapAt(s, top - 1, picks[top - 1]) == s;
      ShuffleDownIdentity(s, picks, top - 1);
    }
  }

  /** An array of zero or one element is returned as it came: the loop
      body never runs. */
  lemma ShortInputUnchanged<T>(s: seq<T>, picks: seq<nat>)
    requires ValidPicks(picks, |s|) && |s| <= 1
    ensures Shuffled(s, picks) == s
  {
  }

  /** `shuffleArray`: copies its argument into a fresh array, then swaps
      `a[i]` with `a[picks[i]]` for `i` from the last index down to 1.  The
      argument itself is left alone. */
  method ShuffleArray<T>(arr: array<T>, picks: seq<nat>) returns (a: array<T>)
    requires ValidPicks(picks, arr.Length)
    ensures fresh(a)
    ensures a.Length == arr.Length
    ensures a[..] == Shuffled(arr[..], picks)
    ensures multiset(a[..]) == multiset(arr[..])
  {
    a := new T[arr.Length](k requires 0 <= k < arr.Length reads arr => arr[k]);
    assert a[..] == arr[..];
    var i := a.Length - 1;
    while i > 0
      invariant -1 <= i < a.Length
      invariant ShuffleDown(a[..], picks, i + 1) == Shuffled(arr[..], picks)
    {
      var j := picks[i];
      ghost var before := a[..];
      a[i], a[j] := a[j], a[i];
      assert a[..] == SwapAt(before, i, j);
      i := i - 1;
    }
    ShuffledIsPermutation(arr[..], picks);
  }
}

/** The in-place Fisher–Yates `shuffle` of src/lib/utils.ts. The counter `i`
    starts at the array's length; each iteration draws an index in [0, i),
    decrements `i` and swaps `array[i]` with the drawn position, so that from
    then on position `i` is settled. The draws of `Math.random` are supplied as
    `picks`, where `picks[k]` is the index drawn in iteration `k`. */
module Shuffle {

  /** The draws a run on an array of length `n` can make: one per iteration,
      and in iteration `k` (counter `n - k` before the decrement) an index
      below `n - k`. */
  predicate ValidPicks(n: nat, picks: seq<nat>) {
    |picks| == n && forall k :: 0 <= k < n ==> picks[k] < n - k
  }

  /** `[s[i], s[j]] = [s[j], s[i]]` on a value. */
  function Swap<T>(s: seq<T>, i: nat, j: nat): seq<T>
    requires i < |s| && j < |s|
  {
    s[i := s[j]][j := s[i]]
  }

  /** A swap exchanges two elements and leaves the others where they were. */
  lemma SwapExchanges<T>(s: seq<T>, i: nat, j: nat)
    requires i < |s| && j < |s|
    ensures |Swap(s, i, j)| == |s| && Swap(s, i, j)[i] == s[j] && Swap(s, i, j)[j] == s[i]
    ensures forall k :: 0 <= k < |s| && k != i && k != j ==> Swap(s, i, j)[k] == s[k]
    ensures multiset(Swap(s, i, j)) == multiset(s)
  {
  }

  /** What the remaining iterations do to `s` when the counter stands at `i`. */
  function Steps<T>(s: seq<T>, picks: seq<nat>, i: nat): seq<T>
    requires i <= |s| && ValidPicks(|s|, picks)
    decreases i
  {
    if i == 0 then s
    else Steps(Swap(s, i - 1, picks[|s| - i]), picks, i - 1)
  }

  /** The whole run: the counter starts at the length. */
  function Shuffled<T>(s: seq<T>, picks: seq<nat>): seq<T>
    requires ValidPicks(|s|, picks)
  {
    Steps(s, picks, |s|)
  }

  /** The remaining iterations only swap elements: the length and the
      multiset of elements are those of the input. */
  lemma {:induction false} StepsPermutes<T>(s: seq<T>, picks: seq<nat>, i: nat)
    requires i <= |s| && ValidPicks(|s|, picks)
    ensures |Steps(s, picks, i)| == |s|
    ensures multiset(Steps(s, picks, i)) == multiset(s)
    decreases i
  {
    if i > 0 {
      SwapExchanges(s, i - 1, picks[|s| - i]);
      StepsPermutes(Swap(s, i - 1, picks[|s| - i]), picks, i - 1);
    }
  }

  /** Positions at or beyond the counter are final: no remaining iteration
      touches them. */
  lemma {:induction false} StepsKeepTail<T>(s: seq<T>, picks: seq<nat>, i: nat)
    requires i <= |s| && ValidPicks(|s|, picks)
    ensures |Steps(s, picks, i)| == |s|
    ensures forall k :: i <= k < |s| ==> Steps(s, picks, i)[k] == s[k]
    decreases i
  {
    if i > 0 {
      var j := picks[|s| - i];
      assert j < i;
      var s' := Swap(s, i - 1, j);
      SwapExchanges(s, i - 1, j);
      StepsKeepTail(s', picks, i - 1);
      forall k | i <= k < |s| ensures Steps(s, picks, i)[k] == s[k] {
        assert s'[k] == s[k];
      }
    }
  }

  /** A shuffle is a permutation of its input. */
  lemma ShuffledPermutes<T>(s: seq<T>, picks: seq<nat>)
    requires ValidPicks(|s|, picks)
    ensures |Shuffled(s, picks)| == |s|
    ensures multiset(Shuffled(s, picks)) == multiset(s)
  {
    StepsPermutes(s, picks, |s|);
  }

  /** When every draw is the counter itself, each swap is with itself and the
      array comes back as it was. */
  lemma {:induction false} StepsSelfPicks<T>(s: seq<T>, picks: seq<nat>, i: nat)
    requires i <= |s| && ValidPicks(|s|, picks)
    requires forall k :: 0 <= k < |s| ==> picks[k] == |s| - 1 - k
    ensures Steps(s, picks, i) == s
    decreases i
  {
    if i > 0 {
      SwapExchanges(s, i - 1, picks[|s| - i]);
      assert Swap(s, i - 1, picks[|s| - i]) == s;
      StepsSelfPicks(s, picks, i - 1);
    }
  }

  /** The loop of `shuffle`: it rearranges `a` in place and returns the very
      array it was given. */
  method ShuffleInPlace<T>(a: array<T>, picks: seq<nat>) returns (r: array<T>)
    requires ValidPicks(a.Length, picks)
    modifies a
    ensures r == a
    ensures a[..] == Shuffled(old(a[..]), picks)
    ensures multiset(a[..]) == multiset(old(a[..]))
  {
    ghost var result := Shuffled(a[..], picks);
    ShuffledPermutes(a[..], picks);
    var i := a.Length;
    ghost var iterations := 0;
    while i != 0
      invariant 0 <= i <= a.Length
      invariant iterations == a.Length - i
      invariant Steps(a[..], picks, i) == result
      invariant |result| == a.Length
      invariant multiset(result) == multiset(old(a[..]))
      invariant forall k :: i <= k < a.Length ==> a[k] == result[k]
      decreases i
    {
      ghost var before := a[..];
      var randomIndex := picks[a.Length - i];
      i := i - 1;
      assert randomIndex <= i;
      a[i], a[randomIndex] := a[randomIndex], a[i];
      assert a[..] == Swap(before, i, randomIndex);
      assert Steps(a[..], picks, i) == result;
      StepsKeepTail(a[..], picks, i);
      iterations := iterations + 1;
    }
    assert iterations == a.Length;
    return a;
  }
}

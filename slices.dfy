/** Python's negative-start slice `s[-n:]`, used for the feature window,
    the recent predictions and the caption. */
module Slices {

  /** `s[-n:]` for a positive `n`: the last `n` elements of `s`, or all of
      `s` when it is shorter. (`s[-0:]` is the whole list in Python, which
      is why `n` must be positive; the program only uses 30, 10 and 5.) */
  function Last<T>(s: seq<T>, n: nat): (r: seq<T>)
    requires n > 0
    ensures |r| == if |s| < n then |s| else n
    ensures forall i | 0 <= i < |r| :: r[i] == s[|s| - |r| + i]
  {
    if |s| <= n then s else s[|s| - n..]
  }

  /** Taking the last `n` twice is taking them once. */
  lemma LastLast<T>(s: seq<T>, n: nat)
    requires n > 0
    ensures Last(Last(s, n), n) == Last(s, n)
  {
  }

  /** Appending to a truncated list and truncating again is the same as
      appending to the whole list and truncating: the sliding window only
      ever needs its last `n` entries. */
  lemma LastAppend<T>(s: seq<T>, x: T, n: nat)
    requires n > 0
    ensures Last(Last(s, n) + [x], n) == Last(s + [x], n)
  {
    var a, b := Last(Last(s, n) + [x], n), Last(s + [x], n);
    assert |a| == |b|;
    forall i | 0 <= i < |a| ensures a[i] == b[i] {
      if i < |a| - 1 {
        assert a[i] == Last(s, n)[|Last(s, n)| + 1 - |a| + i];
      }
    }
  }

}

/** The two NumPy operations the stabiliser relies on: `np.argmax` over the
    classifier's probability vector and `np.unique` over recent predictions. */
module Numpy {

  /** `np.argmax` restricted to `a[from..]`: the first index, at or after
      `from`, holding the largest value there. */
  function ArgmaxFrom(a: seq<real>, from: nat): (k: nat)
    requires from < |a|
    ensures from <= k < |a|
    ensures forall j | from <= j < |a| :: a[j] <= a[k]
    ensures forall j | from <= j < k :: a[j] < a[k]
    decreases |a| - from
  {
    if from == |a| - 1 then from
    else
      var k := ArgmaxFrom(a, from + 1);
      if a[from] >= a[k] then from else k
  }

  /** `np.argmax(a)`: an index of a maximal entry, and among those the first,
      which is how NumPy breaks ties. */
  function Argmax(a: seq<real>): (k: nat)
    requires |a| > 0
    ensures k < |a|
    ensures forall j | 0 <= j < |a| :: a[j] <= a[k]
    ensures forall j | 0 <= j < k :: a[j] < a[k]
  {
    ArgmaxFrom(a, 0)
  }

  /** The two properties of Argmax pin the index down: any index that is
      maximal and first-maximal is the one Argmax returns. */
  lemma ArgmaxUnique(a: seq<real>, k: nat)
    requires k < |a|
    requires forall j | 0 <= j < |a| :: a[j] <= a[k]
    requires forall j | 0 <= j < k :: a[j] < a[k]
    ensures Argmax(a) == k
  {
  }

  predicate StrictlyIncreasing(s: seq<int>)
  {
    forall i, j | 0 <= i < j < |s| :: s[i] < s[j]
  }

  /** Insert `x` into an ascending sequence of distinct values. */
  function InsertSorted(s: seq<int>, x: int): (r: seq<int>)
    ensures |r| > 0
  {
    if s == [] then [x]
    else if x < s[0] then [x] + s
    else if x == s[0] then s
    else [s[0]] + InsertSorted(s[1..], x)
  }

  /** `np.unique(s)`: the distinct values of `s` in ascending order. */
  function Unique(s: seq<int>): (r: seq<int>)
    ensures |s| > 0 ==> |r| > 0
  {
    if s == [] then [] else InsertSorted(Unique(s[1..]), s[0])
  }

  /** Insertion keeps the sequence strictly increasing, adds exactly `x`,
      and puts the smaller of `x` and the old head first. */
  lemma {:induction false} InsertSortedCorrect(s: seq<int>, x: int)
    requires StrictlyIncreasing(s)
    ensures StrictlyIncreasing(InsertSorted(s, x))
    ensures forall y :: y in InsertSorted(s, x) <==> y in s || y == x
    ensures InsertSorted(s, x)[0] == if s == [] || x < s[0] then x else s[0]
  {
    if s != [] && x > s[0] {
      InsertSortedCorrect(s[1..], x);
      var t := InsertSorted(s[1..], x);
      assert s[0] < t[0];
      assert InsertSorted(s, x) == [s[0]] + t;
    }
  }

  /** `np.unique` returns each value of `s` once, in ascending order. */
  lemma {:induction false} UniqueCorrect(s: seq<int>)
    ensures StrictlyIncreasing(Unique(s))
    ensures forall y :: y in Unique(s) <==> y in s
  {
    if s != [] {
      UniqueCorrect(s[1..]);
      InsertSortedCorrect(Unique(s[1..]), s[0]);
      assert s == [s[0]] + s[1..];
    }
  }

  /** The first entry of `np.unique(s)` is the minimum of `s`: it occurs in
      `s` and no entry of `s` is smaller. It is neither the oldest entry nor
      the most frequent one. */
  lemma {:induction false} UniqueHeadIsMinimum(s: seq<int>)
    requires |s| > 0
    ensures |Unique(s)| > 0
    ensures Unique(s)[0] in s
    ensures forall j | 0 <= j < |s| :: Unique(s)[0] <= s[j]
  {
    var r := Unique(s);
    UniqueCorrect(s);
    assert s[0] in r;
    forall j | 0 <= j < |s| ensures r[0] <= s[j] {
      assert s[j] in s;
      var i :| 0 <= i < |r| && r[i] == s[j];
      assert i == 0 || r[0] < r[i];
    }
  }

}

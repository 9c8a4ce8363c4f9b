/** Sums of integer sequences, as the catalog's counting queries compute them,
    and the facts about them that the counting properties rest on. */
module Sums {

  /** The sum of the first `n` elements of `s`, added in index order. */
  function SumTo(s: seq<int>, n: int): int
    requires 0 <= n <= |s|
    decreases n
  {
    if n == 0 then 0 else SumTo(s, n - 1) + s[n - 1]
  }

  function Sum(s: seq<int>): int {
    SumTo(s, |s|)
  }

  /** Two pairs of sequences with the same element-wise differences have the same
      difference of sums. */
  lemma {:induction false} SumDifferencePointwise(a: seq<int>, b: seq<int>, a2: seq<int>, b2: seq<int>, n: int)
    requires |b| == |a| && |a2| == |a| && |b2| == |a| && 0 <= n <= |a|
    requires forall i :: 0 <= i < |a| ==> a2[i] - b2[i] == a[i] - b[i]
    ensures SumTo(a2, n) - SumTo(b2, n) == SumTo(a, n) - SumTo(b, n)
    decreases n
  {
    if n > 0 {
      SumDifferencePointwise(a, b, a2, b2, n - 1);
    }
  }

  /** Overwriting one element changes the sum by the difference, if the element is counted. */
  lemma {:induction false} SumUpdate(s: seq<int>, i: int, v: int, n: int)
    requires 0 <= i < |s| && 0 <= n <= |s|
    ensures SumTo(s[i := v], n) == SumTo(s, n) + (if i < n then v - s[i] else 0)
    decreases n
  {
    if n > 0 {
      SumUpdate(s, i, v, n - 1);
    }
  }

  /** Elements that are all zero add nothing. */
  lemma {:induction false} SumZeroTail(s: seq<int>, m: int, n: int)
    requires 0 <= m <= n <= |s|
    requires forall i :: m <= i < n ==> s[i] == 0
    ensures SumTo(s, n) == SumTo(s, m)
    decreases n
  {
    if n > m {
      SumZeroTail(s, m, n - 1);
    }
  }

  /** The sum of a concatenation is the sum of the sums. */
  lemma {:induction false} SumAppend(a: seq<int>, b: seq<int>, n: int)
    requires 0 <= n <= |b|
    ensures SumTo(a + b, |a| + n) == Sum(a) + SumTo(b, n)
    decreases n
  {
    if n == 0 {
      SumPrefix(a + b, a, |a|);
    } else {
      SumAppend(a, b, n - 1);
    }
  }

  /** A sum over the first `n` elements only sees those elements. */
  lemma {:induction false} SumPrefix(s: seq<int>, t: seq<int>, n: int)
    requires 0 <= n <= |s| && n <= |t| && s[..n] == t[..n]
    ensures SumTo(s, n) == SumTo(t, n)
    decreases n
  {
    if n > 0 {
      assert s[n - 1] == s[..n][n - 1] == t[n - 1];
      SumPrefix(s, t, n - 1);
    }
  }

  /** Removing the element at `k` takes exactly that element out of the sum. */
  lemma SumRemove(s: seq<int>, k: int)
    requires 0 <= k < |s|
    ensures Sum(s[..k] + s[k + 1..]) == Sum(s) - s[k]
  {
    SumAppend(s[..k], s[k + 1..], |s| - k - 1);
    SumAppend(s[..k], [s[k]] + s[k + 1..], |s| - k);
    assert s == s[..k] + ([s[k]] + s[k + 1..]);
    SumAppend([s[k]], s[k + 1..], |s| - k - 1);
    assert SumTo([s[k]], 0) == 0;
  }

  /** A sum of pointwise smaller elements is smaller. */
  lemma {:induction false} SumMonotone(a: seq<int>, b: seq<int>, n: int)
    requires |a| == |b| && 0 <= n <= |a|
    requires forall i :: 0 <= i < |a| ==> a[i] <= b[i]
    ensures SumTo(a, n) <= SumTo(b, n)
    decreases n
  {
    if n > 0 {
      SumMonotone(a, b, n - 1);
    }
  }

  /** A sum of non-negative elements is at least each of them, and so at least zero. */
  lemma {:induction false} SumBoundsElements(s: seq<int>, n: int)
    requires 0 <= n <= |s|
    requires forall i :: 0 <= i < |s| ==> 0 <= s[i]
    ensures 0 <= SumTo(s, n)
    ensures forall i :: 0 <= i < n ==> s[i] <= SumTo(s, n)
    decreases n
  {
    if n > 0 {
      SumBoundsElements(s, n - 1);
    }
  }
}

/**
 * Fixed-stride decimation, Python's `s[::k]` for a positive k
 * (spacecraft_trajectory_propagator.py, lines 169-170 and 246-247).
 */
module Decimation {

  /** The index in the original series of the i-th retained element: i * k,
      counted up one stride at a time. */
  function RetainedIndex(i: nat, k: nat): nat {
    if i == 0 then 0 else RetainedIndex(i - 1, k) + k
  }

  lemma {:induction false} RetainedIndexIsProduct(i: nat, k: nat)
    ensures RetainedIndex(i, k) == i * k
  {
    if i > 0 {
      RetainedIndexIsProduct(i - 1, k);
      MulSucc(i - 1, k);
    }
  }

  /** With a positive stride, later retained elements come from later indices. */
  lemma {:induction false} RetainedIndexIncreasing(i: nat, j: nat, k: nat)
    requires i < j && k > 0
    ensures RetainedIndex(i, k) < RetainedIndex(j, k)
    decreases j
  {
    if i < j - 1 {
      RetainedIndexIncreasing(i, j - 1, k);
    }
  }

  /** The elements at indices 0, k, 2k, ... of `s`: the first, then every k-th
      one after it, as many as fit below the length (which element sits where
      is DecimateAt). */
  function Decimate<T>(s: seq<T>, k: nat): (r: seq<T>)
    requires k > 0
    ensures |s| == 0 ==> r == []
    ensures |s| > 0 ==> |r| > 0 && r[0] == s[0]
    ensures |s| > 0 ==> RetainedIndex(|r| - 1, k) < |s| <= RetainedIndex(|r|, k)
    decreases |s|
  {
    if s == [] then []
    else if |s| <= k then [s[0]]
    else
      var rest := Decimate(s[k..], k);
      assert RetainedIndex(|rest| + 1, k) == RetainedIndex(|rest|, k) + k;
      assert RetainedIndex(|rest|, k) == RetainedIndex(|rest| - 1, k) + k;
      [s[0]] + rest
  }

  /** The i-th retained element is the one at index i * k. */
  lemma {:induction false} DecimateAt<T>(s: seq<T>, k: nat, i: nat)
    requires k > 0 && i < |Decimate(s, k)|
    ensures RetainedIndex(i, k) < |s| && Decimate(s, k)[i] == s[RetainedIndex(i, k)]
    decreases |s|
  {
    if i > 0 {
      DecimateAt(s[k..], k, i - 1);
    }
  }

  lemma MulSucc(j: int, k: int)
    ensures (j + 1) * k == j * k + k
  {
  }

  lemma MulAtLeast(d: int, k: int)
    requires d >= 1 && k > 0
    ensures d * k >= k
  {
  }

  /** Euclidean division is determined by quotient and remainder. */
  lemma DivModUnique(a: int, k: int, q: int, m: int)
    requires k > 0 && a == q * k + m && 0 <= m < k
    ensures a / k == q && a % k == m
  {
    var q', m' := a / k, a % k;
    assert a == q' * k + m';
    assert (q - q') * k == m' - m;
    if q - q' >= 1 {
      MulAtLeast(q - q', k);
    } else if q' - q >= 1 {
      MulAtLeast(q' - q, k);
    }
  }

  /** The quotient of a value lying between two consecutive multiples. */
  lemma QuotientOfBounds(a: int, k: int, q: int)
    requires k > 0 && q * k <= a < q * k + k
    ensures a / k == q
  {
    DivModUnique(a, k, q, a - q * k);
  }

  /** Rounding up n / k gives j + 1 when n lies just above the j-th multiple. */
  lemma CeilDivOfBounds(n: int, k: int, j: int)
    requires k > 0 && j * k < n <= j * k + k
    ensures (n + k - 1) / k == j + 1
  {
    MulSucc(j, k);
    DivModUnique(n + k - 1, k, j + 1, n - 1 - j * k);
  }

  lemma RetainedIndexIsMultiple(j: nat, k: nat)
    requires k > 0
    ensures RetainedIndex(j, k) % k == 0
  {
    RetainedIndexIsProduct(j, k);
    DivModUnique(RetainedIndex(j, k), k, j, 0);
  }

  lemma MultipleIsRetainedIndex(i: nat, k: nat)
    requires k > 0 && i % k == 0
    ensures RetainedIndex(i / k, k) == i
  {
    RetainedIndexIsProduct(i / k, k);
  }

  /** A series of N elements keeps ceil(N / k) of them. */
  lemma DecimateLength<T>(s: seq<T>, k: nat)
    requires k > 0
    ensures |Decimate(s, k)| == (|s| + k - 1) / k
  {
    var n, m := |s|, |Decimate(s, k)|;
    if n == 0 {
      QuotientOfBounds(k - 1, k, 0);
    } else {
      assert RetainedIndex(m, k) == RetainedIndex(m - 1, k) + k;
      RetainedIndexIsProduct(m - 1, k);
      CeilDivOfBounds(n, k, m - 1);
    }
  }

  /** An element is kept exactly when it sits at a multiple of the stride:
      no element at a multiple is skipped and nothing else is taken. */
  lemma DecimateMembers<T>(s: seq<T>, k: nat, x: T)
    requires k > 0
    ensures x in Decimate(s, k) <==> exists i :: 0 <= i < |s| && i % k == 0 && s[i] == x
  {
    if x in Decimate(s, k) {
      RetainedAtMultiple(s, k, x);
    }
    if exists i :: 0 <= i < |s| && i % k == 0 && s[i] == x {
      var i :| 0 <= i < |s| && i % k == 0 && s[i] == x;
      MultipleRetained(s, k, i);
    }
  }

  lemma RetainedAtMultiple<T>(s: seq<T>, k: nat, x: T)
    requires k > 0 && x in Decimate(s, k)
    ensures exists i :: 0 <= i < |s| && i % k == 0 && s[i] == x
  {
    var r := Decimate(s, k);
    var j :| 0 <= j < |r| && r[j] == x;
    var i := RetainedIndex(j, k);
    DecimateAt(s, k, j);
    RetainedIndexIsMultiple(j, k);
    assert i < |s| && s[i] == x;
  }

  lemma MultipleRetained<T>(s: seq<T>, k: nat, i: nat)
    requires k > 0 && i < |s| && i % k == 0
    ensures s[i] in Decimate(s, k)
  {
    var r := Decimate(s, k);
    var j := i / k;
    MultipleIsRetainedIndex(i, k);
    if j > |r| {
      RetainedIndexIncreasing(|r|, j, k);
    }
    DecimateAt(s, k, j);
  }

  /** The retained indices 0, k, 2k, ... increase strictly, so a time-ascending
      series stays time-ascending: no epoch is reordered or duplicated. */
  lemma {:induction false} DecimateAscending(s: seq<real>, k: nat)
    requires k > 0
    requires forall i, j :: 0 <= i < j < |s| ==> s[i] < s[j]
    ensures var r := Decimate(s, k);
      forall i, j :: 0 <= i < j < |r| ==> r[i] < r[j]
  {
    var r := Decimate(s, k);
    forall i, j | 0 <= i < j < |r|
      ensures r[i] < r[j]
    {
      DecimateAt(s, k, i);
      DecimateAt(s, k, j);
      RetainedIndexIncreasing(i, j, k);
    }
  }

  /** Decimating a column of a series is taking that column of the decimated
      series: two columns decimated with the same stride stay paired row by row. */
  lemma {:induction false} DecimateColumn<A, B>(s: seq<A>, column: seq<B>, k: nat, f: A -> B)
    requires k > 0
    requires |column| == |s| && forall i :: 0 <= i < |s| ==> column[i] == f(s[i])
    ensures |Decimate(column, k)| == |Decimate(s, k)|
    ensures forall i :: 0 <= i < |Decimate(s, k)| ==> Decimate(column, k)[i] == f(Decimate(s, k)[i])
  {
    DecimateLength(s, k);
    DecimateLength(column, k);
    forall i | 0 <= i < |Decimate(s, k)|
      ensures Decimate(column, k)[i] == f(Decimate(s, k)[i])
    {
      DecimateAt(s, k, i);
      DecimateAt(column, k, i);
    }
  }

  /** The first element retained is the first of the series, the last is the
      one at the largest multiple of the stride below the length. */
  lemma DecimateEnds<T>(s: seq<T>, k: nat)
    requires k > 0 && |s| > 0
    ensures var r := Decimate(s, k);
      && |r| > 0 && r[0] == s[0]
      && RetainedIndex((|s| - 1) / k, k) < |s|
      && r[|r| - 1] == s[RetainedIndex((|s| - 1) / k, k)]
  {
    var m := |Decimate(s, k)|;
    DecimateAt(s, k, m - 1);
    assert RetainedIndex(m, k) == RetainedIndex(m - 1, k) + k;
    RetainedIndexIsProduct(m - 1, k);
    QuotientOfBounds(|s| - 1, k, m - 1);
  }
}

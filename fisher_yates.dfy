/**
 * The in-place Fisher–Yates shuffle both mission screens run before choosing rounds
 * (js/MisionesMatched.js and js/Matched2vs2.js), with `Math.random` replaced by the
 * sequence of indices it would have produced.
 */
module FisherYates {

  /** No element occurs twice. */
  predicate Distinct<T(==)>(s: seq<T>) {
    forall i, j :: 0 <= i < j < |s| ==> s[i] != s[j]
  }

  /** `[0, 1, …, n - 1]`, as `Array.from({ length: n }, (_, index) => index)` builds it. */
  function Range(n: nat): (r: seq<nat>)
    ensures |r| == n && forall k :: 0 <= k < n ==> r[k] == k
  {
    seq(n, k requires 0 <= k < n => k)
  }

  /**
   * The random draws of one shuffle of `n` elements. The loop runs for `i = n - 1` down to
   * `1`; its `k`-th iteration has `i = n - 1 - k` and draws `j = floor(random * (i + 1))`,
   * so `0 <= j <= i`.
   */
  predicate ValidDraws(n: nat, draws: seq<nat>) {
    |draws| == (if n == 0 then 0 else n - 1) &&
    forall k :: 0 <= k < |draws| ==> draws[k] <= n - 1 - k
  }

  /** `[s[i], s[j]] = [s[j], s[i]]`. */
  function Swap<T>(s: seq<T>, i: nat, j: nat): (r: seq<T>)
    requires i < |s| && j < |s|
    ensures |r| == |s| && r[i] == s[j] && r[j] == s[i]
    ensures forall k :: 0 <= k < |s| && k != i && k != j ==> r[k] == s[k]
  {
    seq(|s|, k requires 0 <= k < |s| => if k == j then s[i] else if k == i then s[j] else s[k])
  }

  /** The swap as two updates, the way the destructuring assignment performs it. */
  lemma SwapIsUpdate<T>(s: seq<T>, i: nat, j: nat)
    requires i < |s| && j < |s|
    ensures Swap(s, i, j) == s[i := s[j]][j := s[i]]
  {
  }

  /** The sequence after the first `k` iterations of the shuffle loop. */
  function ShuffleSteps<T>(s: seq<T>, draws: seq<nat>, k: nat): (r: seq<T>)
    requires ValidDraws(|s|, draws) && k <= |draws|
    ensures |r| == |s|
  {
    if k == 0 then s else Swap(ShuffleSteps(s, draws, k - 1), |s| - k, draws[k - 1])
  }

  /** The sequence once the shuffle loop is over. */
  function Shuffled<T>(s: seq<T>, draws: seq<nat>): (r: seq<T>)
    requires ValidDraws(|s|, draws)
    ensures |r| == |s|
  {
    ShuffleSteps(s, draws, |draws|)
  }

  /** The shuffle loop, in place on an array. */
  method Shuffle<T>(a: array<T>, draws: seq<nat>)
    requires ValidDraws(a.Length, draws)
    modifies a
    ensures a[..] == Shuffled(old(a[..]), draws)
  {
    var i := a.Length - 1;
    while i > 0
      invariant a.Length > 0 ==> 0 <= i
      invariant 0 <= a.Length - 1 - i <= |draws|
      invariant a[..] == ShuffleSteps(old(a[..]), draws, a.Length - 1 - i)
    {
      var k := a.Length - 1 - i;
      var j := draws[k];
      ghost var before := a[..];
      a[i], a[j] := a[j], a[i];
      SwapIsUpdate(before, i, j);
      assert a[..] == before[i := before[j]][j := before[i]];
      assert ShuffleSteps(old(a[..]), draws, k + 1) == Swap(before, i, j);
      i := i - 1;
    }
  }

  /** A swap moves elements without adding or losing any. */
  lemma SwapPermutes<T>(s: seq<T>, i: nat, j: nat)
    requires i < |s| && j < |s|
    ensures multiset(Swap(s, i, j)) == multiset(s)
  {
    var t := s[i := s[j]];
    SwapIsUpdate(s, i, j);
    assert multiset(t) == multiset(s) - multiset{s[i]} + multiset{s[j]};
    assert multiset(t[j := s[i]]) == multiset(t) - multiset{t[j]} + multiset{s[i]};
  }

  /** One iteration of the shuffle loop permutes the sequence. */
  lemma ShuffleStepPermutes<T>(s: seq<T>, draws: seq<nat>, k: nat)
    requires ValidDraws(|s|, draws) && 0 < k <= |draws|
    requires multiset(ShuffleSteps(s, draws, k - 1)) == multiset(s)
    ensures multiset(ShuffleSteps(s, draws, k)) == multiset(s)
  {
    var prev := ShuffleSteps(s, draws, k - 1);
    SwapPermutes(prev, |s| - k, draws[k - 1]);
  }

  /** The shuffle loop only ever permutes the sequence. */
  lemma {:induction false} ShuffleStepsPermutes<T>(s: seq<T>, draws: seq<nat>, k: nat)
    requires ValidDraws(|s|, draws) && k <= |draws|
    ensures multiset(ShuffleSteps(s, draws, k)) == multiset(s)
  {
    if k > 0 {
      ShuffleStepsPermutes(s, draws, k - 1);
      ShuffleStepPermutes(s, draws, k);
    }
  }

  /** A swap keeps the elements apart. */
  lemma SwapDistinct<T>(s: seq<T>, i: nat, j: nat)
    requires i < |s| && j < |s| && Distinct(s)
    ensures Distinct(Swap(s, i, j))
  {
    var r := Swap(s, i, j);
    forall a, b | 0 <= a < b < |r| ensures r[a] != r[b] {
      var a' := if a == i then j else if a == j then i else a;
      var b' := if b == i then j else if b == j then i else b;
      assert r[a] == s[a'] && r[b] == s[b'] && a' != b';
    }
  }

  /** Shuffling never makes two elements equal. */
  lemma {:induction false} ShuffleStepsDistinct<T>(s: seq<T>, draws: seq<nat>, k: nat)
    requires ValidDraws(|s|, draws) && k <= |draws| && Distinct(s)
    ensures Distinct(ShuffleSteps(s, draws, k))
  {
    if k > 0 {
      ShuffleStepsDistinct(s, draws, k - 1);
      SwapDistinct(ShuffleSteps(s, draws, k - 1), |s| - k, draws[k - 1]);
    }
  }

  /**
   * Shuffling `0..n-1` gives a permutation of `0..n-1`: every index occurs, only indices
   * occur, and none twice.
   */
  lemma ShuffledRange(n: nat, draws: seq<nat>)
    requires ValidDraws(n, draws)
    ensures var r := Shuffled<nat>(Range(n), draws);
      |r| == n && Distinct(r) &&
      (forall k :: 0 <= k < n ==> r[k] < n) &&
      (forall v :: 0 <= v < n ==> v in r)
  {
    var s := Range(n);
    forall i, j | 0 <= i < j < n ensures s[i] != s[j] {
      assert s[i] == i && s[j] == j;
    }
    ShuffledPermutation(s, draws);
    var r := Shuffled(s, draws);
    forall k | 0 <= k < n ensures r[k] < n {
      InRange(n, r[k]);
    }
    forall v | 0 <= v < n ensures v in r {
      InRange(n, v);
    }
  }

  /** The members of `0..n-1` are the naturals below `n`. */
  lemma InRange(n: nat, v: nat)
    ensures v in Range(n) <==> v < n
  {
    if v < n {
      assert Range(n)[v] == v;
    }
  }

  /** A shuffle of distinct elements holds each original element exactly once. */
  lemma ShuffledPermutation<T>(s: seq<T>, draws: seq<nat>)
    requires ValidDraws(|s|, draws) && Distinct(s)
    ensures var r := Shuffled(s, draws);
      multiset(r) == multiset(s) && Distinct(r) && (forall x :: x in r <==> x in s)
  {
    var r := Shuffled(s, draws);
    ShuffleStepsDistinct(s, draws, |draws|);
    ShuffleStepsPermutes(s, draws, |draws|);
    forall x ensures x in r <==> x in s {
      assert x in r <==> x in multiset(r);
      assert x in s <==> x in multiset(s);
    }
  }

  /** The first `n` elements of a shuffle of distinct elements are distinct elements of the original. */
  lemma ShuffledPrefix<T>(s: seq<T>, draws: seq<nat>, n: nat)
    requires ValidDraws(|s|, draws) && Distinct(s) && n <= |s|
    ensures var p := Shuffled(s, draws)[..n];
      |p| == n && Distinct(p) && forall k :: 0 <= k < n ==> p[k] in s
  {
    ShuffledPermutation(s, draws);
    var r := Shuffled(s, draws);
    forall k | 0 <= k < n ensures r[..n][k] in s {
      assert r[..n][k] == r[k];
      assert r[k] in multiset(r);
    }
  }

  /** An element is in the shuffle exactly when it is in the original. */
  lemma ShuffledHas<T>(s: seq<T>, draws: seq<nat>, x: T)
    requires ValidDraws(|s|, draws)
    ensures x in Shuffled(s, draws) <==> x in s
  {
    ShuffleStepsPermutes(s, draws, |draws|);
    assert x in Shuffled(s, draws) <==> x in multiset(Shuffled(s, draws));
    assert x in s <==> x in multiset(s);
  }
}

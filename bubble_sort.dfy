/**
 * Bubble sort of a vector of integers, done in place.
 *
 * The imperative method `BubbleSort` keeps the two nested counting loops of
 * the C++ `bubbleSort`. Its loop invariants tie the array, at every iteration,
 * to pure functions that replay the same loops: `Step` is one iteration of
 * the inner loop body (a compare-and-swap), `PassUpTo` the first j iterations
 * of one pass, `SweepsUpTo` the first i passes. The lemmas prove what the
 * algorithm guarantees of those states: after pass i the last i + 1 cells
 * hold the largest values in order, the multiset of values never changes,
 * and an already sorted vector is never touched.
 */
module Bubble {

  /** Non-decreasing order: every earlier cell is at most every later one. */
  predicate Sorted(s: seq<int>) {
    forall p, q :: 0 <= p < q < |s| ==> s[p] <= s[q]
  }

  /**
   * The cells from k on hold their final values: every pair whose right-hand
   * cell lies in s[k..] is in order. So s[k..] is sorted and nothing before k
   * exceeds anything in it.
   */
  predicate Settled(s: seq<int>, k: nat)
    requires k <= |s|
  {
    forall p, q :: 0 <= p < q < |s| && k <= q ==> s[p] <= s[q]
  }

  /** s[j] is a maximum of s[0..j+1]. */
  predicate MaxUpTo(s: seq<int>, j: nat)
    requires j < |s|
  {
    forall p :: 0 <= p < j ==> s[p] <= s[j]
  }

  /** One iteration of the inner loop body: swap s[j] and s[j+1] when s[j] > s[j+1]. */
  function Step(s: seq<int>, j: nat): (r: seq<int>)
    requires j + 1 < |s|
    ensures |r| == |s|
  {
    if s[j] > s[j + 1] then s[j := s[j + 1]][j + 1 := s[j]] else s
  }

  /** The vector after the first j iterations of the inner loop of one pass (compare-and-swaps at 0 .. j - 1). */
  function PassUpTo(s: seq<int>, j: nat): (r: seq<int>)
    requires j == 0 || j < |s|
    ensures |r| == |s|
  {
    if j == 0 then s else Step(PassUpTo(s, j - 1), j - 1)
  }

  /** The vector after the first i passes of the outer loop; pass k runs its inner loop while j < |s| - k - 1. */
  function SweepsUpTo(s: seq<int>, i: nat): (r: seq<int>)
    requires i == 0 || i < |s|
    ensures |r| == |s|
  {
    if i == 0 then s else PassUpTo(SweepsUpTo(s, i - 1), |s| - i)
  }

  /**
   * Number of passes: the outer loop runs while i < n - 1, so not at all when
   * n <= 1. It is a legal pass count for `SweepsUpTo`, and it leaves at most
   * the first cell outside the settled suffix n - r.
   */
  function PassCount(n: nat): (r: nat)
    ensures r == 0 || r < n
    ensures n <= r + 1
  {
    if n == 0 then 0 else n - 1
  }

  /** What the whole sort leaves in a vector that held s. */
  function BubbleSortSpec(s: seq<int>): (r: seq<int>)
    ensures |r| == |s|
  {
    SweepsUpTo(s, PassCount(|s|))
  }

  /**
   * What one compare-and-swap does: a pair already in order (equal
   * neighbours included) is left alone, an out-of-order pair is exchanged,
   * and no other cell changes; either way the pair ends up in order.
   */
  lemma StepEffect(s: seq<int>, j: nat)
    requires j + 1 < |s|
    ensures s[j] <= s[j + 1] ==> Step(s, j) == s
    ensures s[j] > s[j + 1] ==> Step(s, j)[j] == s[j + 1] && Step(s, j)[j + 1] == s[j]
    ensures forall k :: 0 <= k < |s| && k != j && k != j + 1 ==> Step(s, j)[k] == s[k]
    ensures Step(s, j)[j] <= Step(s, j)[j + 1]
  {
  }

  /** A compare-and-swap only exchanges two cells, so the multiset of values is unchanged. */
  lemma StepPermutes(s: seq<int>, j: nat)
    requires j + 1 < |s|
    ensures multiset(Step(s, j)) == multiset(s)
  {
  }

  lemma {:induction false} PassPermutes(s: seq<int>, j: nat)
    requires j == 0 || j < |s|
    ensures multiset(PassUpTo(s, j)) == multiset(s)
  {
    if j > 0 {
      var t := PassUpTo(s, j - 1);
      assert j - 1 + 1 < |t|;
      PassPermutes(s, j - 1);
      StepPermutes(t, j - 1);
      assert PassUpTo(s, j) == Step(t, j - 1);
    }
  }

  /** One pass keeps the multiset of values. */
  lemma SweepPermutes(s: seq<int>, i: nat)
    requires 0 < i < |s|
    ensures multiset(SweepsUpTo(s, i)) == multiset(SweepsUpTo(s, i - 1))
  {
    var t := SweepsUpTo(s, i - 1);
    var k := |s| - i;
    assert 0 < k < |t|;
    PassPermutes(t, k);
    assert SweepsUpTo(s, i) == PassUpTo(t, k);
  }

  lemma {:induction false} SweepsPermute(s: seq<int>, i: nat)
    requires i == 0 || i < |s|
    ensures multiset(SweepsUpTo(s, i)) == multiset(s)
  {
    if i > 0 {
      SweepsPermute(s, i - 1);
      SweepPermutes(s, i);
    }
  }

  /** A compare-and-swap at j below the settled suffix keeps that suffix, and carries the running maximum to j + 1. */
  lemma StepKeeps(s: seq<int>, j: nat, m: nat)
    requires j + 1 < m <= |s|
    requires Settled(s, m) && MaxUpTo(s, j)
    ensures Settled(Step(s, j), m) && MaxUpTo(Step(s, j), j + 1)
  {
    // The step only exchanges s[j] and s[j + 1], both below m and both at most s[m..].
    StepEffect(s, j);
  }

  /** When the inner loop stops (j = m - 1), the maximum at m - 1 extends the settled suffix by one cell. */
  lemma SettleBoundary(s: seq<int>, m: nat)
    requires 1 <= m <= |s|
    requires Settled(s, m) && MaxUpTo(s, m - 1)
    ensures Settled(s, m - 1)
  {
  }

  /**
   * Inner-loop invariant: during a pass whose bound is m, after j iterations
   * the suffix from m is still settled and the running maximum sits at j.
   */
  lemma {:induction false} PassKeeps(s: seq<int>, m: nat, j: nat)
    requires j < m <= |s| && Settled(s, m)
    ensures Settled(PassUpTo(s, j), m) && MaxUpTo(PassUpTo(s, j), j)
  {
    if j > 0 {
      var t := PassUpTo(s, j - 1);
      assert j - 1 + 1 < m <= |t|;
      PassKeeps(s, m, j - 1);
      StepKeeps(t, j - 1, m);
      assert PassUpTo(s, j) == Step(t, j - 1);
    }
  }

  /** Outer-loop invariant: after i passes the last i cells are final, and after n - 1 passes all n are. */
  lemma {:induction false} SweepsSettle(s: seq<int>, i: nat)
    requires i == 0 || i < |s|
    ensures Settled(SweepsUpTo(s, i), |s| - i)
  {
    if i > 0 {
      var t := SweepsUpTo(s, i - 1);
      var m := |s| - i + 1;
      assert 1 < m <= |t|;
      SweepsSettle(s, i - 1);
      PassKeeps(t, m, m - 1);
      SettleBoundary(PassUpTo(t, m - 1), m);
      assert SweepsUpTo(s, i) == PassUpTo(t, m - 1);
    }
  }

  /** The sort yields a non-decreasing permutation of its input. */
  lemma BubbleSortCorrect(s: seq<int>)
    ensures Sorted(BubbleSortSpec(s))
    ensures multiset(BubbleSortSpec(s)) == multiset(s) && |BubbleSortSpec(s)| == |s|
  {
    if |s| > 0 {
      SweepsSettle(s, |s| - 1);
    }
    SweepsPermute(s, PassCount(|s|));
  }

  /** On sorted input no compare-and-swap changes anything, since a swap needs s[j] > s[j+1] strictly. */
  lemma {:induction false} PassFixed(s: seq<int>, j: nat)
    requires (j == 0 || j < |s|) && Sorted(s)
    ensures PassUpTo(s, j) == s
  {
    if j > 0 {
      assert j - 1 + 1 < |s|;
      PassFixed(s, j - 1);
      StepEffect(s, j - 1);
      assert PassUpTo(s, j) == Step(s, j - 1);
    }
  }

  lemma {:induction false} SweepsFixed(s: seq<int>, i: nat)
    requires (i == 0 || i < |s|) && Sorted(s)
    ensures SweepsUpTo(s, i) == s
  {
    if i > 0 {
      var k := |s| - i;
      assert 0 < k < |s|;
      SweepsFixed(s, i - 1);
      PassFixed(s, k);
      assert SweepsUpTo(s, i) == PassUpTo(s, k);
    }
  }

  /** An already sorted input, equal neighbours included, is left exactly as it was. */
  lemma SortedUnchanged(s: seq<int>)
    requires Sorted(s)
    ensures BubbleSortSpec(s) == s
  {
    SweepsFixed(s, PassCount(|s|));
  }

  /** Sorting twice is the same as sorting once. */
  lemma BubbleSortIdempotent(s: seq<int>)
    ensures BubbleSortSpec(BubbleSortSpec(s)) == BubbleSortSpec(s)
  {
    BubbleSortCorrect(s);
    SortedUnchanged(BubbleSortSpec(s));
  }

  /** With fewer than two elements the outer loop never runs. */
  lemma ShortUnchanged(s: seq<int>)
    requires |s| <= 1
    ensures BubbleSortSpec(s) == s
  {
  }

  /** The first cell of a sorted sequence is at most every value of any sequence with the same values. */
  lemma SortedHeadIsLeast(a: seq<int>, b: seq<int>)
    requires Sorted(a) && multiset(a) == multiset(b) && |b| > 0
    ensures |a| > 0 && a[0] <= b[0]
  {
    assert b[0] in multiset(b);
    assert b[0] in multiset(a);
    var l :| 0 <= l < |a| && a[l] == b[0];
    assert a[0] <= a[l];
  }

  /** Two sorted sequences holding the same multiset of values are equal. */
  lemma {:induction false} SortedUnique(a: seq<int>, b: seq<int>)
    requires Sorted(a) && Sorted(b) && multiset(a) == multiset(b)
    ensures a == b
  {
    assert |a| == |multiset(a)| == |multiset(b)| == |b|;
    if |a| > 0 {
      SortedHeadIsLeast(a, b);
      SortedHeadIsLeast(b, a);
      var x := a[0];
      assert a == [x] + a[1..] && b == [x] + b[1..];
      assert multiset(a[1..]) == multiset(a) - multiset{x};
      assert multiset(b[1..]) == multiset(b) - multiset{x};
      SortedUnique(a[1..], b[1..]);
    }
  }

  /** The sort agrees with any other sorted rearrangement of its input: it is the sorted permutation. */
  lemma BubbleSortIsSortedPermutation(s: seq<int>, t: seq<int>)
    requires Sorted(t) && multiset(t) == multiset(s)
    ensures BubbleSortSpec(s) == t
  {
    BubbleSortCorrect(s);
    SortedUnique(BubbleSortSpec(s), t);
  }

  /** The sample driver's expected output is in order. */
  lemma SampleOutputSorted()
    ensures Sorted([11, 12, 22, 25, 34, 64, 90])
  {
  }

  /** The sample driver's expected output holds the values of its input. */
  lemma SampleSameValues()
    ensures multiset([64, 34, 25, 12, 22, 11, 90]) == multiset([11, 12, 22, 25, 34, 64, 90])
  {
  }

  /** The input of the sample driver becomes 11 12 22 25 34 64 90. */
  lemma SampleSorted()
    ensures BubbleSortSpec([64, 34, 25, 12, 22, 11, 90]) == [11, 12, 22, 25, 34, 64, 90]
  {
    SampleSameValues();
    SampleOutputSorted();
    BubbleSortIsSortedPermutation([64, 34, 25, 12, 22, 11, 90], [11, 12, 22, 25, 34, 64, 90]);
  }

  /** Duplicates keep their multiplicity: 5 3 5 1 becomes 1 3 5 5. */
  lemma DuplicatesKept()
    ensures BubbleSortSpec([5, 3, 5, 1]) == [1, 3, 5, 5]
  {
    assert multiset([1, 3, 5, 5]) == multiset([5, 3, 5, 1]) by {
      assert multiset([5, 3, 5, 1]) == multiset{5, 3, 5, 1};
      assert multiset([1, 3, 5, 5]) == multiset{1, 3, 5, 5};
    }
    assert Sorted([1, 3, 5, 5]);
    BubbleSortIsSortedPermutation([5, 3, 5, 1], [1, 3, 5, 5]);
  }

  /**
   * The in-place sort: n - 1 passes, pass i comparing neighbours j, j + 1 for
   * j + 1 < n - i and swapping them when the left one is strictly greater.
   */
  method BubbleSort(a: array<int>)
    modifies a
    ensures a[..] == BubbleSortSpec(old(a[..]))
    ensures Sorted(a[..])
    ensures multiset(a[..]) == multiset(old(a[..]))
  {
    ghost var s0 := a[..];
    var n := a.Length;
    var i := 0;
    while i < n - 1
      invariant 0 <= i && (i == 0 || i < n)
      invariant a[..] == SweepsUpTo(s0, i)
      invariant Settled(a[..], n - i)
    {
      ghost var before := a[..];
      var j := 0;
      while j < n - i - 1
        invariant 0 <= j <= n - i - 1
        invariant a[..] == PassUpTo(before, j)
        invariant Settled(a[..], n - i) && MaxUpTo(a[..], j)
      {
        ghost var s := a[..];
        if a[j] > a[j + 1] {
          a[j], a[j + 1] := a[j + 1], a[j];
          assert a[..] == s[j := s[j + 1]][j + 1 := s[j]];
        }
        assert a[..] == Step(s, j);
        j := j + 1;
        PassKeeps(before, n - i, j);
      }
      i := i + 1;
      SweepsSettle(s0, i);
    }
    assert a[..] == BubbleSortSpec(s0);
    BubbleSortCorrect(s0);
  }

  /** The driver's sort of its literal input, without the printing around it. */
  method SortSample() returns (r: seq<int>)
    ensures r == [11, 12, 22, 25, 34, 64, 90]
  {
    var a := new int[] [64, 34, 25, 12, 22, 11, 90];
    assert a[..] == [64, 34, 25, 12, 22, 11, 90];
    BubbleSort(a);
    r := a[..];
    SampleSorted();
  }
}

/**
 * numpy's `median` on a non-empty list of reals: the middle value of the
 * sorted list, or the mean of the two middle values when the length is even.
 * It is specified through a sort whose result is proved to be the unique
 * sorted permutation, so the median does not depend on the input order.
 */
module Statistics {

  predicate SortedAsc(s: seq<real>) {
    forall i, j :: 0 <= i < j < |s| ==> s[i] <= s[j]
  }

  function Insert(x: real, s: seq<real>): (r: seq<real>)
    requires SortedAsc(s)
    ensures SortedAsc(r)
    ensures multiset(r) == multiset(s) + multiset{x}
    ensures |r| == |s| + 1 && r[0] == if s == [] || x <= s[0] then x else s[0]
  {
    if s == [] || x <= s[0] then [x] + s
    else
      assert s == [s[0]] + s[1..];
      [s[0]] + Insert(x, s[1..])
  }

  /** Insertion sort, ascending. */
  function Sort(s: seq<real>): (r: seq<real>)
    ensures SortedAsc(r)
    ensures multiset(r) == multiset(s)
  {
    if s == [] then []
    else
      assert s == [s[0]] + s[1..];
      Insert(s[0], Sort(s[1..]))
  }

  lemma SortedTail(a: seq<real>)
    requires a != [] && SortedAsc(a)
    ensures SortedAsc(a[1..])
  {
  }

  lemma SameHeadSameTail(a: seq<real>, b: seq<real>)
    requires a != [] && b != [] && a[0] == b[0] && a[1..] == b[1..]
    ensures a == b
  {
    assert a == [a[0]] + a[1..] && b == [b[0]] + b[1..];
  }

  lemma TailMultiset(s: seq<real>)
    requires s != []
    ensures multiset(s[1..]) == multiset(s) - multiset{s[0]}
  {
    assert s == [s[0]] + s[1..];
    assert multiset(s) == multiset{s[0]} + multiset(s[1..]);
  }

  /** The head of a sorted list is at most any value in it. */
  lemma SortedHeadIsLeast(a: seq<real>, x: real)
    requires SortedAsc(a) && x in multiset(a)
    ensures a[0] <= x
  {
    assert x in a;
    var j :| 0 <= j < |a| && a[j] == x;
    assert j == 0 || a[0] <= a[j];
  }

  /** There is only one sorted arrangement of a multiset of values. */
  lemma {:induction false} SortedUnique(a: seq<real>, b: seq<real>)
    requires SortedAsc(a) && SortedAsc(b)
    requires multiset(a) == multiset(b)
    ensures a == b
    decreases |a|
  {
    assert |a| == |multiset(a)| == |multiset(b)| == |b|;
    if a != [] {
      SortedHeadIsLeast(a, b[0]);
      SortedHeadIsLeast(b, a[0]);
      TailMultiset(a);
      TailMultiset(b);
      SortedTail(a);
      SortedTail(b);
      SortedUnique(a[1..], b[1..]);
      SameHeadSameTail(a, b);
    }
  }

  /** How many values are at most `m`. */
  function CountAtMost(s: seq<real>, m: real): nat
  {
    if s == [] then 0 else (if s[0] <= m then 1 else 0) + CountAtMost(s[1..], m)
  }

  /** How many values are at least `m`. */
  function CountAtLeast(s: seq<real>, m: real): nat
  {
    if s == [] then 0 else (if s[0] >= m then 1 else 0) + CountAtLeast(s[1..], m)
  }

  lemma {:induction false} CountConcat(a: seq<real>, b: seq<real>, m: real)
    ensures CountAtMost(a + b, m) == CountAtMost(a, m) + CountAtMost(b, m)
    ensures CountAtLeast(a + b, m) == CountAtLeast(a, m) + CountAtLeast(b, m)
    decreases |a|
  {
    if a == [] {
      assert a + b == b;
    } else {
      assert (a + b)[1..] == a[1..] + b;
      CountConcat(a[1..], b, m);
    }
  }

  lemma MultisetRemove(t: seq<real>, k: nat)
    requires k < |t|
    ensures multiset(t[..k] + t[k + 1..]) == multiset(t) - multiset{t[k]}
  {
    assert t == t[..k] + [t[k]] + t[k + 1..];
    assert multiset(t) == multiset(t[..k]) + multiset{t[k]} + multiset(t[k + 1..]);
  }

  lemma CountRemove(t: seq<real>, k: nat, m: real)
    requires k < |t|
    ensures CountAtMost(t, m) == CountAtMost(t[..k] + t[k + 1..], m) + CountAtMost([t[k]], m)
    ensures CountAtLeast(t, m) == CountAtLeast(t[..k] + t[k + 1..], m) + CountAtLeast([t[k]], m)
  {
    assert t == (t[..k] + [t[k]]) + t[k + 1..];
    CountConcat(t[..k] + [t[k]], t[k + 1..], m);
    CountConcat(t[..k], [t[k]], m);
    CountConcat(t[..k], t[k + 1..], m);
  }

  lemma CountFirst(s: seq<real>, m: real)
    requires s != []
    ensures CountAtMost(s, m) == CountAtMost([s[0]], m) + CountAtMost(s[1..], m)
    ensures CountAtLeast(s, m) == CountAtLeast([s[0]], m) + CountAtLeast(s[1..], m)
  {
    assert [s[0]][1..] == [];
  }

  /** The first value of `s` sits somewhere in its permutation `t`; without it the two are still permutations. */
  lemma MatchFirst(s: seq<real>, t: seq<real>) returns (k: nat)
    requires s != [] && multiset(s) == multiset(t)
    ensures k < |t| && t[k] == s[0]
    ensures multiset(s[1..]) == multiset(t[..k] + t[k + 1..])
  {
    assert s[0] in t by {
      assert s[0] in multiset(t);
    }
    k :| 0 <= k < |t| && t[k] == s[0];
    MultisetRemove(t, k);
    TailMultiset(s);
  }

  /** Counts depend only on the multiset of values, not on their order. */
  lemma {:induction false} CountPermutation(s: seq<real>, t: seq<real>, m: real)
    requires multiset(s) == multiset(t)
    ensures CountAtMost(s, m) == CountAtMost(t, m)
    ensures CountAtLeast(s, m) == CountAtLeast(t, m)
    decreases |s|
  {
    if s == [] {
      assert |t| == |multiset(t)| == 0;
    } else {
      var k := MatchFirst(s, t);
      CountPermutation(s[1..], t[..k] + t[k + 1..], m);
      CountRemove(t, k, m);
      CountFirst(s, m);
    }
  }

  lemma {:induction false} CountAtMostPrefix(t: seq<real>, m: real, k: nat)
    requires k <= |t|
    requires forall i :: 0 <= i < k ==> t[i] <= m
    ensures CountAtMost(t, m) >= k
    decreases |t|
  {
    if k > 0 {
      CountAtMostPrefix(t[1..], m, k - 1);
    } else if t != [] {
      CountAtMostPrefix(t[1..], m, 0);
    }
  }

  lemma {:induction false} CountAtLeastSuffix(t: seq<real>, m: real, k: nat)
    requires k <= |t|
    requires forall i :: k <= i < |t| ==> m <= t[i]
    ensures CountAtLeast(t, m) >= |t| - k
    decreases |t|
  {
    if t != [] {
      CountAtLeastSuffix(t[1..], m, if k > 0 then k - 1 else 0);
    }
  }

  /**
   * The median of values already in ascending order: the middle one, or the
   * mean of the two middle ones when there is an even number of them. At
   * least half the values lie on each side of it.
   */
  function SortedMedian(t: seq<real>): (m: real)
    requires |t| > 0 && SortedAsc(t)
    ensures exists i :: 0 <= i < |t| && t[i] <= m
    ensures exists j :: 0 <= j < |t| && m <= t[j]
    ensures 2 * CountAtMost(t, m) >= |t| && 2 * CountAtLeast(t, m) >= |t|
  {
    var n := |t|;
    var lo, hi := if n % 2 == 1 then n / 2 else n / 2 - 1, n / 2;
    var m := if n % 2 == 1 then t[n / 2] else (t[n / 2 - 1] + t[n / 2]) / 2.0;
    assert t[lo] <= m <= t[hi];
    CountAtMostPrefix(t, m, lo + 1);
    CountAtLeastSuffix(t, m, hi);
    m
  }

  lemma SameElements(s: seq<real>, t: seq<real>)
    requires multiset(s) == multiset(t)
    ensures |s| == |t| && forall i :: 0 <= i < |t| ==> t[i] in s
  {
    assert |s| == |multiset(s)| == |multiset(t)| == |t|;
    forall i | 0 <= i < |t| ensures t[i] in s {
      assert t[i] in multiset(t);
    }
  }

  /** `np.median(s)`. */
  function Median(s: seq<real>): (m: real)
    requires |s| > 0
    ensures exists i :: 0 <= i < |s| && s[i] <= m
    ensures exists j :: 0 <= j < |s| && m <= s[j]
    ensures 2 * CountAtMost(s, m) >= |s| && 2 * CountAtLeast(s, m) >= |s|
  {
    var t := Sort(s);
    SameElements(s, t);
    CountPermutation(s, t, SortedMedian(t));
    SortedMedian(t)
  }

  /** The median depends only on the multiset of values. */
  lemma MedianPermutation(s: seq<real>, t: seq<real>)
    requires |s| > 0 && multiset(s) == multiset(t)
    ensures |t| > 0 && Median(s) == Median(t)
  {
    assert |s| == |multiset(s)| == |multiset(t)| == |t|;
    SortedUnique(Sort(s), Sort(t));
  }

  /** A list of one repeated value has that value as its median. */
  lemma MedianOfConstant(s: seq<real>, v: real)
    requires |s| > 0 && forall i :: 0 <= i < |s| ==> s[i] == v
    ensures Median(s) == v
  {
  }
}

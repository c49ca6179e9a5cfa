/** The summary statistics the feature extraction takes over a patient's creatinine results. */
module Statistics {

  /** `min()`: the smallest value. */
  function MinOf(s: seq<real>): (m: real)
    requires |s| > 0
    ensures m in s
    ensures forall x :: x in s ==> m <= x
  {
    if |s| == 1 then s[0]
    else
      assert s == [s[0]] + s[1..];
      var rest := MinOf(s[1..]);
      if s[0] <= rest then s[0] else rest
  }

  /** `max()`: the largest value. */
  function MaxOf(s: seq<real>): (m: real)
    requires |s| > 0
    ensures m in s
    ensures forall x :: x in s ==> x <= m
  {
    if |s| == 1 then s[0]
    else
      assert s == [s[0]] + s[1..];
      var rest := MaxOf(s[1..]);
      if s[0] >= rest then s[0] else rest
  }

  function Sum(s: seq<real>): real
  {
    if s == [] then 0.0 else s[0] + Sum(s[1..])
  }

  /** `mean()`: the arithmetic mean, which lies between the minimum and the maximum. */
  function Mean(s: seq<real>): (m: real)
    requires |s| > 0
    ensures MinOf(s) <= m <= MaxOf(s)
  {
    SumBounds(s, MinOf(s), MaxOf(s));
    QuotientBounds(Sum(s), |s| as real, MinOf(s), MaxOf(s));
    Sum(s) / (|s| as real)
  }

  lemma QuotientBounds(total: real, n: real, lo: real, hi: real)
    requires n > 0.0 && n * lo <= total <= n * hi
    ensures lo <= total / n <= hi
  {
    var q := total / n;
    assert total == n * q;
  }

  lemma {:induction false} SumBounds(s: seq<real>, lo: real, hi: real)
    requires forall x :: x in s ==> lo <= x <= hi
    ensures (|s| as real) * lo <= Sum(s) <= (|s| as real) * hi
  {
    if s != [] {
      assert s[0] in s;
      assert forall x :: x in s[1..] ==> x in s;
      SumBounds(s[1..], lo, hi);
    }
  }

  predicate Ascending(s: seq<real>)
  {
    forall i, j :: 0 <= i < j < |s| ==> s[i] <= s[j]
  }

  /** Inserts `x` into an ascending sequence, keeping it ascending. */
  function Insert(x: real, s: seq<real>): (r: seq<real>)
    requires Ascending(s)
    ensures Ascending(r)
    ensures multiset(r) == multiset(s) + multiset{x}
  {
    if s == [] || x <= s[0] then
      AscendingCons(x, s);
      [x] + s
    else
      assert s == [s[0]] + s[1..];
      var rest := Insert(x, s[1..]);
      LowerBoundOfInsert(s[0], x, s[1..], rest);
      AscendingCons(s[0], rest);
      [s[0]] + rest
  }

  lemma AscendingCons(a: real, r: seq<real>)
    requires Ascending(r)
    requires forall y :: y in r ==> a <= y
    ensures Ascending([a] + r)
  {
    forall i, j | 0 <= i < j < |[a] + r| ensures ([a] + r)[i] <= ([a] + r)[j] {
      assert ([a] + r)[j] == r[j - 1];
      if i > 0 { assert ([a] + r)[i] == r[i - 1]; } else { assert r[j - 1] in r; }
    }
  }

  lemma LowerBoundOfInsert(a: real, x: real, s: seq<real>, r: seq<real>)
    requires Ascending([a] + s) && a < x
    requires multiset(r) == multiset(s) + multiset{x}
    ensures forall y :: y in r ==> a <= y
  {
    forall y | y in r ensures a <= y {
      assert y in multiset(r);
      if y != x {
        assert y in multiset(s);
        var k :| 0 <= k < |s| && s[k] == y;
        assert ([a] + s)[0] <= ([a] + s)[k + 1];
      }
    }
  }

  /** The values in ascending order, as the median sees them. */
  function SortAscending(s: seq<real>): (r: seq<real>)
    ensures Ascending(r)
    ensures multiset(r) == multiset(s)
  {
    if s == [] then []
    else
      assert s == [s[0]] + s[1..];
      Insert(s[0], SortAscending(s[1..]))
  }

  /** The two middle-ranked values of the sorted results (the same one twice for an odd count). */
  function MiddlePair(s: seq<real>): (p: (real, real))
    requires |s| > 0
    ensures p.0 in s && p.1 in s && p.0 <= p.1
  {
    var t := SortAscending(s);
    assert |t| == |multiset(t)| == |s|;
    var h := |t| / 2;
    var lower := if |t| % 2 == 1 then h else h - 1;
    assert t[h] in multiset(t) && t[lower] in multiset(t);
    (t[lower], t[h])
  }

  /** `median()`: the middle value of the sorted results, or the mean of the two middle values
      when their number is even. */
  function Median(s: seq<real>): (m: real)
    requires |s| > 0
    ensures MinOf(s) <= m <= MaxOf(s)
    ensures |s| % 2 == 1 ==> m in s
  {
    var (lo, hi) := MiddlePair(s);
    if |s| % 2 == 1 then hi else (lo + hi) / 2.0
  }

  /** Number of values strictly below `v`. */
  function CountBelow(s: seq<real>, v: real): nat
  {
    if s == [] then 0 else (if s[0] < v then 1 else 0) + CountBelow(s[1..], v)
  }

  /** Number of values strictly above `v`. */
  function CountAbove(s: seq<real>, v: real): nat
  {
    if s == [] then 0 else (if s[0] > v then 1 else 0) + CountAbove(s[1..], v)
  }

  lemma {:induction false} CountsAppend(a: seq<real>, b: seq<real>, v: real)
    ensures CountBelow(a + b, v) == CountBelow(a, v) + CountBelow(b, v)
    ensures CountAbove(a + b, v) == CountAbove(a, v) + CountAbove(b, v)
  {
    if a != [] {
      assert (a + b)[0] == a[0];
      assert (a + b)[1..] == a[1..] + b;
      CountsAppend(a[1..], b, v);
    } else {
      assert a + b == b;
    }
  }

  /** The counts depend only on the values, not on their order. */
  lemma {:induction false} CountsOfPermutation(s: seq<real>, t: seq<real>, v: real)
    requires multiset(s) == multiset(t)
    ensures CountBelow(s, v) == CountBelow(t, v)
    ensures CountAbove(s, v) == CountAbove(t, v)
    decreases |s|
  {
    if s != [] {
      assert s[0] in multiset(t);
      var i :| 0 <= i < |t| && t[i] == s[0];
      var rest := t[..i] + t[i + 1..];
      MultisetWithout(s, 0);
      MultisetWithout(t, i);
      assert s[..0] + s[1..] == s[1..];
      Cancel(multiset(s[1..]), multiset(rest), s[0]);
      CountsOfPermutation(s[1..], rest, v);
      CountsWithout(t, i, v);
    }
  }

  lemma MultisetWithout(t: seq<real>, i: nat)
    requires i < |t|
    ensures multiset(t) == multiset(t[..i] + t[i + 1..]) + multiset{t[i]}
  {
    assert t == t[..i] + [t[i]] + t[i + 1..];
  }

  lemma Cancel(a: multiset<real>, b: multiset<real>, x: real)
    requires a + multiset{x} == b + multiset{x}
    ensures a == b
  {
    forall y ensures a[y] == b[y] {
      assert (a + multiset{x})[y] == (b + multiset{x})[y];
    }
  }

  lemma CountsWithout(t: seq<real>, i: nat, v: real)
    requires i < |t|
    ensures CountBelow(t, v) == CountBelow(t[..i] + t[i + 1..], v) + (if t[i] < v then 1 else 0)
    ensures CountAbove(t, v) == CountAbove(t[..i] + t[i + 1..], v) + (if t[i] > v then 1 else 0)
  {
    assert t == t[..i] + ([t[i]] + t[i + 1..]);
    CountsAppend(t[..i], [t[i]] + t[i + 1..], v);
    CountsAppend([t[i]], t[i + 1..], v);
    CountsAppend(t[..i], t[i + 1..], v);
  }

  /** In an ascending sequence, the values below s[k] all sit before k and those above it after k. */
  lemma {:induction false} CountsOfAscending(s: seq<real>, k: nat)
    requires Ascending(s) && k < |s|
    ensures CountBelow(s, s[k]) <= k
    ensures CountAbove(s, s[k]) <= |s| - 1 - k
  {
    assert s == s[..k] + s[k..];
    CountsAppend(s[..k], s[k..], s[k]);
    CountBound(s[..k], s[k]);
    CountBound(s[k..], s[k]);
    NoneBelow(s[k..], s[k]);
    assert s[..k + 1] + s[k + 1..] == s;
    CountsAppend(s[..k + 1], s[k + 1..], s[k]);
    CountBound(s[k + 1..], s[k]);
    NoneAbove(s[..k + 1], s[k]);
  }

  lemma {:induction false} CountBound(s: seq<real>, v: real)
    ensures CountBelow(s, v) <= |s| && CountAbove(s, v) <= |s|
  {
    if s != [] { CountBound(s[1..], v); }
  }

  lemma {:induction false} NoneBelow(s: seq<real>, v: real)
    requires forall x :: x in s ==> v <= x
    ensures CountBelow(s, v) == 0
  {
    if s != [] {
      assert s[0] in s;
      assert forall x :: x in s[1..] ==> x in s;
      NoneBelow(s[1..], v);
    }
  }

  lemma {:induction false} NoneAbove(s: seq<real>, v: real)
    requires forall x :: x in s ==> x <= v
    ensures CountAbove(s, v) == 0
  {
    if s != [] {
      assert s[0] in s;
      assert forall x :: x in s[1..] ==> x in s;
      NoneAbove(s[1..], v);
    }
  }

  /** The middle pair is the middle-ranked one: at most (n-1)/2 results lie below the lower value
      and at most n/2 above it, at most n/2 below the upper value and at most (n-1)/2 above it.
      For an odd count the median is therefore the middle-ranked result, and for an even count
      the mean of the (n/2)-th and (n/2+1)-th smallest results. */
  lemma MiddlePairIsMiddleRanked(s: seq<real>)
    requires |s| > 0
    ensures CountBelow(s, MiddlePair(s).0) <= (|s| - 1) / 2
    ensures CountAbove(s, MiddlePair(s).0) <= |s| / 2
    ensures CountBelow(s, MiddlePair(s).1) <= |s| / 2
    ensures CountAbove(s, MiddlePair(s).1) <= (|s| - 1) / 2
  {
    var t := SortAscending(s);
    assert |t| == |multiset(t)| == |s|;
    var h := |t| / 2;
    var lower := if |t| % 2 == 1 then h else h - 1;
    CountsOfAscending(t, lower);
    CountsOfAscending(t, h);
    CountsOfPermutation(s, t, t[lower]);
    CountsOfPermutation(s, t, t[h]);
  }
}

/** The three summary statistics the hybrid chart annotates for a category:
    pandas' `min`, `max` and `median` over a non-empty column of numbers. */
module Stats {
  function Min(s: seq<real>): (m: real)
    requires |s| > 0
    ensures m in s
    ensures forall x :: x in s ==> m <= x
  {
    if |s| == 1 then s[0]
    else
      var rest := Min(s[1..]);
      assert forall x :: x in s ==> x == s[0] || x in s[1..];
      if s[0] <= rest then s[0] else rest
  }

  function Max(s: seq<real>): (m: real)
    requires |s| > 0
    ensures m in s
    ensures forall x :: x in s ==> x <= m
  {
    if |s| == 1 then s[0]
    else
      var rest := Max(s[1..]);
      assert forall x :: x in s ==> x == s[0] || x in s[1..];
      if rest <= s[0] then s[0] else rest
  }

  predicate NonDecreasing(s: seq<real>)
  {
    forall i, j :: 0 <= i < j < |s| ==> s[i] <= s[j]
  }

  /** Puts `x` in front of the first value that is not smaller. */
  function Insert(x: real, s: seq<real>): (r: seq<real>)
    ensures |r| == |s| + 1
  {
    if |s| == 0 || x <= s[0] then [x] + s
    else [s[0]] + Insert(x, s[1..])
  }

  /** Inserting into an ascending sequence keeps it ascending and adds
      exactly one occurrence of `x`. */
  lemma InsertSorted(x: real, s: seq<real>)
    requires NonDecreasing(s)
    ensures NonDecreasing(Insert(x, s))
    ensures multiset(Insert(x, s)) == multiset(s) + multiset{x}
    ensures Insert(x, s)[0] == x || (|s| > 0 && Insert(x, s)[0] == s[0])
  {
    InsertAscending(x, s);
    InsertAdds(x, s);
  }

  lemma {:induction false} InsertAscending(x: real, s: seq<real>)
    requires NonDecreasing(s)
    ensures NonDecreasing(Insert(x, s))
    ensures Insert(x, s)[0] == x || (|s| > 0 && Insert(x, s)[0] == s[0])
  {
    if |s| == 0 || x <= s[0] {
      assert Insert(x, s) == [x] + s;
      ConsSorted(x, s);
    } else {
      var t := Insert(x, s[1..]);
      assert Insert(x, s) == [s[0]] + t;
      InsertAscending(x, s[1..]);
      assert t[0] == x || t[0] == s[1];
      ConsSorted(s[0], t);
    }
  }

  lemma {:induction false} InsertAdds(x: real, s: seq<real>)
    ensures multiset(Insert(x, s)) == multiset(s) + multiset{x}
  {
    if |s| > 0 && !(x <= s[0]) {
      InsertAdds(x, s[1..]);
      assert s == [s[0]] + s[1..];
    }
  }

  /** A value no larger than the head of an ascending sequence can go in
      front of it. */
  lemma ConsSorted(a: real, t: seq<real>)
    requires NonDecreasing(t) && (|t| > 0 ==> a <= t[0])
    ensures NonDecreasing([a] + t)
  {
    var r := [a] + t;
    forall i, j | 0 <= i < j < |r|
      ensures r[i] <= r[j]
    {
      if i == 0 {
        assert r[j] == t[j - 1] && t[0] <= t[j - 1];
      } else {
        assert r[i] == t[i - 1] && r[j] == t[j - 1];
      }
    }
  }

  /** The values in ascending order (insertion sort). */
  function Ascending(s: seq<real>): (r: seq<real>)
    ensures |r| == |s|
  {
    if |s| == 0 then [] else Insert(s[0], Ascending(s[1..]))
  }

  /** Sorting yields an ascending rearrangement of the values. */
  lemma {:induction false} AscendingSorted(s: seq<real>)
    ensures NonDecreasing(Ascending(s))
    ensures multiset(Ascending(s)) == multiset(s)
  {
    if |s| > 0 {
      AscendingSorted(s[1..]);
      InsertSorted(s[0], Ascending(s[1..]));
      assert s == [s[0]] + s[1..];
    }
  }

  lemma AscendingMembers(s: seq<real>)
    ensures forall x :: x in Ascending(s) <==> x in s
  {
    var r := Ascending(s);
    AscendingSorted(s);
    forall x ensures x in r <==> x in s {
      assert x in r <==> x in multiset(r);
      assert x in s <==> x in multiset(s);
    }
  }

  /** The middle value of `t`, or the mean of the two middle values when
      `t` has even length. */
  function Middle(t: seq<real>): real
    requires |t| > 0
  {
    var n := |t|;
    if n % 2 == 1 then t[n / 2] else (t[n / 2 - 1] + t[n / 2]) / 2.0
  }

  lemma MiddleBounds(t: seq<real>)
    requires |t| > 0
    ensures Min(t) <= Middle(t) <= Max(t)
  {
    var n := |t|;
    assert t[n / 2] in t;
    if n % 2 == 0 {
      assert t[n / 2 - 1] in t;
    }
  }

  /** pandas' median: the middle of the values in ascending order. */
  function Median(s: seq<real>): (m: real)
    requires |s| > 0
    ensures Min(s) <= m <= Max(s)
  {
    var t := Ascending(s);
    AscendingMembers(s);
    MiddleBounds(t);
    assert Min(t) in s && Max(t) in s;
    assert Min(s) in t && Max(s) in t;
    Middle(t)
  }

  lemma HeadIsLeast(a: seq<real>, x: real)
    requires NonDecreasing(a) && x in multiset(a)
    ensures a[0] <= x
  {
    var i :| 0 <= i < |a| && a[i] == x;
  }

  lemma TailMultiset(a: seq<real>)
    requires |a| > 0
    ensures multiset(a[1..]) == multiset(a) - multiset{a[0]}
  {
    assert a == [a[0]] + a[1..];
  }

  lemma SameLeast(a: seq<real>, b: seq<real>)
    requires NonDecreasing(a) && NonDecreasing(b)
    requires |a| > 0 && multiset(a) == multiset(b)
    ensures |b| > 0 && a[0] == b[0]
  {
    assert a[0] in multiset(a);
    assert |b| > 0;
    assert b[0] in multiset(b);
    HeadIsLeast(a, b[0]);
    HeadIsLeast(b, a[0]);
  }

  lemma TailsAgree(a: seq<real>, b: seq<real>)
    requires NonDecreasing(a) && NonDecreasing(b)
    requires |a| > 0 && |b| > 0 && a[0] == b[0] && multiset(a) == multiset(b)
    ensures NonDecreasing(a[1..]) && NonDecreasing(b[1..])
    ensures multiset(a[1..]) == multiset(b[1..])
  {
    TailMultiset(a);
    TailMultiset(b);
  }

  /** Two non-decreasing sequences holding the same values are equal. */
  lemma {:induction false} NonDecreasingUnique(a: seq<real>, b: seq<real>)
    requires NonDecreasing(a) && NonDecreasing(b)
    requires multiset(a) == multiset(b)
    ensures a == b
    decreases |a|
  {
    if |a| == 0 {
      assert |b| == |multiset(b)| == 0;
    } else {
      SameLeast(a, b);
      TailsAgree(a, b);
      NonDecreasingUnique(a[1..], b[1..]);
      assert a == [a[0]] + a[1..];
      assert b == [b[0]] + b[1..];
    }
  }

  /** Sorting is determined by the values alone. */
  lemma AscendingUnique(s: seq<real>, e: seq<real>)
    requires NonDecreasing(e) && multiset(e) == multiset(s)
    ensures Ascending(s) == e
  {
    AscendingSorted(s);
    NonDecreasingUnique(Ascending(s), e);
  }

  /** The median depends only on which values occur and how often, not on
      the order of the rows. */
  lemma MedianOfPermutation(a: seq<real>, b: seq<real>)
    requires |a| > 0 && multiset(a) == multiset(b)
    ensures |b| > 0 && Median(a) == Median(b)
  {
    assert |b| == |multiset(b)| == |a|;
    AscendingSorted(a);
    AscendingUnique(b, Ascending(a));
  }

  /** Every value equal to `v`. */
  predicate AllEqual(s: seq<real>, v: real)
  {
    forall k :: 0 <= k < |s| ==> s[k] == v
  }

  /** When all values coincide, minimum, median and maximum are that value. */
  lemma ConstantSummary(s: seq<real>, v: real)
    requires |s| > 0 && AllEqual(s, v)
    ensures Min(s) == Median(s) == Max(s) == v
  {
    var lo, hi := Min(s), Max(s);
    assert lo == v && hi == v by {
      var i :| 0 <= i < |s| && s[i] == lo;
      var j :| 0 <= j < |s| && s[j] == hi;
    }
  }

  /** On values already in ascending order the median is the middle. */
  lemma MedianOfAscending(t: seq<real>)
    requires |t| > 0 && NonDecreasing(t)
    ensures Median(t) == Middle(t)
  {
    AscendingUnique(t, t);
  }

  lemma MiddleOfPair(x: real, y: real)
    ensures Middle([x, y]) == (x + y) / 2.0
  {
  }

  lemma OrderedPairMedian(x: real, y: real)
    requires x <= y
    ensures Median([x, y]) == (x + y) / 2.0
  {
    MedianOfAscending([x, y]);
    MiddleOfPair(x, y);
  }

  /** The median of two values is their mean. */
  lemma PairMedian(x: real, y: real)
    ensures Median([x, y]) == (x + y) / 2.0
  {
    if y < x {
      OrderedPairMedian(y, x);
      assert multiset([y, x]) == multiset([x, y]);
      MedianOfPermutation([y, x], [x, y]);
    } else {
      OrderedPairMedian(x, y);
    }
  }
}
